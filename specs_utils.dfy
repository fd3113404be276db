/** The helpers of the browser test suite (specs/utils/index.js): the
    third-party block listing, the loaded script and stylesheet listings
    with version stripping, and `expectWithMessage`. */
module SpecsUtils {
  import opened Options
  import opened Js
  import opened AssetUrl
  import opened BlockRegistry

  /** The plain object built for each kept block type. */
  datatype BlockSummary<S> = BlockSummary(
    name: string,
    title: string,
    description: string,
    category: string,
    keywords: seq<string>,
    supports: S)

  /** The `map` callback: exactly the six copied fields. */
  function Summarize<S>(b: BlockType<S>): BlockSummary<S> {
    BlockSummary(b.name, b.title, b.description, b.category, b.keywords, b.supports)
  }

  /** `getThirdPartyBlocks`: `filter` out the core blocks, then `map`. */
  function ThirdPartyBlocks<S>(blocks: seq<BlockType<S>>): (r: seq<BlockSummary<S>>)
    ensures |r| <= |blocks|
    ensures forall k :: 0 <= k < |r| ==> !IsCoreBlock(r[k].name)
  {
    if blocks == [] then []
    else
      var rest := ThirdPartyBlocks(blocks[1..]);
      if IsCoreBlock(blocks[0].name) then rest else [Summarize(blocks[0])] + rest
  }

  /** The listing keeps the registry's order: listing a concatenation lists
      the first part, then the second. */
  lemma {:induction false} ThirdPartyBlocksAppend<S>(a: seq<BlockType<S>>, b: seq<BlockType<S>>)
    ensures ThirdPartyBlocks(a + b) == ThirdPartyBlocks(a) + ThirdPartyBlocks(b)
  {
    if a == [] {
      assert a + b == b;
    } else {
      assert (a + b)[0] == a[0];
      assert (a + b)[1..] == a[1..] + b;
      ThirdPartyBlocksAppend(a[1..], b);
    }
  }

  /** A block type is listed exactly when its name does not start with
      `core`, and what is listed is its six-field summary. */
  lemma {:induction false} ThirdPartyBlocksMembership<S>(blocks: seq<BlockType<S>>)
    ensures forall s :: s in ThirdPartyBlocks(blocks) <==>
      exists b :: b in blocks && !IsCoreBlock(b.name) && s == Summarize(b)
  {
    if blocks != [] {
      ThirdPartyBlocksMembership(blocks[1..]);
      forall b | b in blocks
        ensures b == blocks[0] || b in blocks[1..]
      {
        var k :| 0 <= k < |blocks| && blocks[k] == b;
        if k > 0 {
          assert blocks[1..][k - 1] == b;
        }
      }
    }
  }

  /** `getAllLoadedScripts`: ids lose `-js`, urls lose the host prefix and
      the version parameter. */
  method GetAllLoadedScripts(scripts: seq<Element>) returns (assets: seq<Asset>)
    ensures assets == Assets(scripts, "-js", true)
  {
    assets := CollectAssets(scripts, "-js", true);
  }

  /** `getAllLoadedStyles`: the same for stylesheet links, with `-css`. */
  method GetAllLoadedStyles(links: seq<Element>) returns (assets: seq<Asset>)
    ensures assets == Assets(links, "-css", true)
  {
    assets := CollectAssets(links, "-css", true);
  }

  /** What `expectWithMessage` did: how it completed, and whether it tried
      to take the error screenshot. */
  datatype Expectation = Expectation(completion: Completion, screenshot: bool)

  /** `expectWithMessage(func, errorMessage = false, captureErrorScreenshot = true)`,
      given how `func` completed. The screenshot's own failure is swallowed,
      so it never changes the completion. */
  function ExpectWithMessage(func: Completion, errorMessage: Option<string>, captureErrorScreenshot: Option<bool>): (r: Expectation)
    ensures r.completion.Returned? <==> func.Returned?
    ensures func.Threw? && Truthy(errorMessage) ==> r.completion == Threw(NewError(errorMessage.value))
    ensures func.Threw? && !Truthy(errorMessage) ==> r.completion == func
    ensures r.screenshot <==> func.Threw? && captureErrorScreenshot.GetOr(true)
  {
    match func
    case Returned => Expectation(Returned, false)
    case Threw(e) =>
      var shot := captureErrorScreenshot.GetOr(true);
      if Truthy(errorMessage) then Expectation(Threw(NewError(errorMessage.value)), shot)
      else Expectation(Threw(e), shot)
  }
}
