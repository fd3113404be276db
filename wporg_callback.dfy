/** The results accumulator of the test run (specs/utils/wporg-callback.js):
    `setOutput` keeps a dictionary of string values across calls, and
    `wporgHttpCallback` replaces the `file:<path>` entries of that same
    dictionary by the files' contents before posting it to wordpress.org. */
module WporgCallback {
  import opened Options
  import opened Strings
  import opened Js

  /** Integers that `JSON.stringify` prints in plain decimal: from 10^21 on
      it switches to exponent form. */
  const PlainLimit := 1_000_000_000_000_000_000_000
  type PlainInt = n: int | -PlainLimit < n < PlainLimit

  /** The values passed to `setOutput`. */
  datatype JsValue = JsString(s: string) | JsBool(b: bool) | JsNumber(n: PlainInt) | JsNull

  /** The decimal digits of `n`. */
  function Digits(n: nat): (r: string)
    ensures |r| >= 1
    ensures forall k :: 0 <= k < |r| ==> '0' <= r[k] <= '9'
    decreases n
  {
    var last := [(('0' as int) + n % 10) as char];
    if n < 10 then last else Digits(n / 10) + last
  }

  /** `JSON.stringify` of a value that is not a string. */
  function JsonText(v: JsValue): (t: string)
    requires !v.JsString?
    ensures t != [] && t[0] != '"'
    ensures v == JsBool(false) ==> t == "false"
  {
    match v
    case JsBool(b) => if b then "true" else "false"
    case JsNull => "null"
    case JsNumber(n) => if n < 0 then "-" + Digits(-n) else Digits(n)
  }

  /** What is stored for a value: a string verbatim, anything else as its
      JSON text. */
  function StoredText(value: JsValue): (t: string)
    ensures value.JsString? ==> t == value.s
    ensures !value.JsString? ==> t == JsonText(value)
  {
    if value.JsString? then value.s else JsonText(value)
  }

  /** The dictionary after `setOutput(field, value)`; `None` is the
      dictionary not yet created (`setOutput.output` is undefined), an
      omitted `value` is the default `false`. */
  function Store(output: Option<map<string, string>>, field: Option<string>, value: Option<JsValue>): (r: Option<map<string, string>>)
    ensures !Truthy(field) ==> r == output
    ensures Truthy(field) ==>
      r.Some? && field.value in r.value && r.value[field.value] == StoredText(value.GetOr(JsBool(false)))
    ensures Truthy(field) ==> forall k :: k != field.value ==>
      (k in r.value <==> k in output.GetOr(map[]))
      && (k in r.value ==> r.value[k] == output.GetOr(map[])[k])
  {
    if Truthy(field) then Some(output.GetOr(map[])[field.value := StoredText(value.GetOr(JsBool(false)))])
    else output
  }

  /** Writing the same field twice keeps only the second value. */
  lemma LastWriteWins(output: Option<map<string, string>>, field: Option<string>, first: Option<JsValue>, second: Option<JsValue>)
    requires Truthy(field)
    ensures Store(Store(output, field, first), field, second) == Store(output, field, second)
  {
    var m := output.GetOr(map[]);
    var f := field.value;
    var t1 := StoredText(first.GetOr(JsBool(false)));
    var t2 := StoredText(second.GetOr(JsBool(false)));
    assert Store(output, field, first) == Some(m[f := t1]);
    assert Store(Some(m[f := t1]), field, second) == Some(m[f := t1][f := t2]);
    assert m[f := t1][f := t2] == m[f := t2];
  }

  /** Writes to different fields do not interfere: they commute. */
  lemma StoresCommute(output: Option<map<string, string>>, f: Option<string>, v: Option<JsValue>, g: Option<JsValue>, h: Option<string>)
    requires Truthy(f) && Truthy(h) && f != h
    ensures Store(Store(output, f, v), h, g) == Store(Store(output, h, g), f, v)
  {
    var m := output.GetOr(map[]);
    var tv := StoredText(v.GetOr(JsBool(false)));
    var tg := StoredText(g.GetOr(JsBool(false)));
    assert Store(output, f, v) == Some(m[f.value := tv]);
    assert Store(output, h, g) == Some(m[h.value := tg]);
    assert Store(Some(m[f.value := tv]), h, g) == Some(m[f.value := tv][h.value := tg]);
    assert Store(Some(m[h.value := tg]), f, v) == Some(m[h.value := tg][f.value := tv]);
    assert m[f.value := tv][h.value := tg] == m[h.value := tg][f.value := tv];
  }

  /** `.` in a JavaScript regular expression without the `s` flag. */
  predicate IsLineTerminator(c: char) {
    c == '\n' || c == '\r' || c == '\U{2028}' || c == '\U{2029}'
  }

  const FilePrefix := "file:"

  /** No character of `s` ends a line. */
  predicate SingleLine(s: string) {
    forall k :: 0 <= k < |s| ==> !IsLineTerminator(s[k])
  }

  /** `value.match(/^file:(.+)$/)`: the captured path, when there is one. */
  function FilePath(v: string): (p: Option<string>)
    ensures p.Some? ==> v == FilePrefix + p.value && p.value != [] && SingleLine(p.value)
  {
    if StartsWith(v, FilePrefix) && |v| > |FilePrefix| && SingleLine(v[|FilePrefix|..])
    then Some(v[|FilePrefix|..])
    else None
  }

  /** Every non-empty single-line path written after `file:` is recognised. */
  lemma FilePathRoundTrip(path: string)
    requires path != [] && SingleLine(path)
    ensures FilePath(FilePrefix + path) == Some(path)
  {
    var v := FilePrefix + path;
    assert v[..|FilePrefix|] == FilePrefix;
    assert v[|FilePrefix|..] == path;
  }

  /** What a non-string value was stored as is never taken for a file. */
  lemma JsonTextIsNoFile(v: JsValue)
    requires !v.JsString?
    ensures FilePath(JsonText(v)) == None
  {
    var t := JsonText(v);
    assert !StartsWith(t, FilePrefix) by {
      match v
      case JsBool(b) =>
        if b {
          assert t[0] == 't';
        } else {
          assert t[1] == 'a';
        }
      case JsNull =>
        assert t[0] == 'n';
      case JsNumber(n) =>
        assert t[0] == '-' || '0' <= t[0] <= '9';
    }
  }

  /** An entry after the import: a `file:` reference to a file that could be
      read is replaced by the file's contents; anything else is kept. */
  function ImportEntry(v: string, files: map<string, string>): (r: string)
    ensures FilePath(v).None? ==> r == v
    ensures FilePath(v).Some? && FilePath(v).value in files ==> r == files[FilePath(v).value]
  {
    match FilePath(v)
    case Some(p) => if p in files then files[p] else v
    case None => v
  }

  /** The dictionary `m` once the entries of the keys in `visited` have
      been imported. */
  function PartlyImported(m: map<string, string>, files: map<string, string>, visited: seq<string>): (r: map<string, string>)
    ensures r.Keys == m.Keys
  {
    map k | k in m :: if k in visited then ImportEntry(m[k], files) else m[k]
  }

  /** Visiting one more key imports its entry and changes nothing else. */
  lemma PartlyImportedStep(m: map<string, string>, files: map<string, string>, visited: seq<string>, x: string)
    requires x in m && x !in visited
    ensures PartlyImported(m, files, visited + [x]) == PartlyImported(m, files, visited)[x := ImportEntry(m[x], files)]
  {
    var a := PartlyImported(m, files, visited + [x]);
    var b := PartlyImported(m, files, visited)[x := ImportEntry(m[x], files)];
    forall k | k in m
      ensures a[k] == b[k]
    {
      assert k in visited + [x] <==> k in visited || k == x;
    }
    assert a.Keys == b.Keys;
  }

  /** The loop's step over the `i`-th of distinct keys: that key has not
      been visited yet, its entry is still the original one, and visiting it
      imports that entry alone. */
  lemma ImportStepAt(m: map<string, string>, files: map<string, string>, keys: seq<string>, i: nat)
    requires i < |keys| && keys[i] in m
    requires forall j, l :: 0 <= j < l < |keys| ==> keys[j] != keys[l]
    ensures PartlyImported(m, files, keys[..i])[keys[i]] == m[keys[i]]
    ensures PartlyImported(m, files, keys[..i + 1]) == PartlyImported(m, files, keys[..i])[keys[i] := ImportEntry(m[keys[i]], files)]
  {
    assert keys[i] !in keys[..i];
    assert keys[..i + 1] == keys[..i] + [keys[i]];
    PartlyImportedStep(m, files, keys[..i], keys[i]);
  }

  /** A `file:` reference the import cannot read. */
  predicate Unreadable(v: string, files: map<string, string>) {
    FilePath(v).Some? && FilePath(v).value !in files
  }

  /** A loop over all the keys has seen every entry. */
  lemma EveryKeyVisited(m: map<string, string>, files: map<string, string>, keys: seq<string>)
    requires forall k :: k in m <==> k in keys
    requires forall j :: 0 <= j < |keys| ==> !Unreadable(m[keys[j]], files)
    ensures forall k :: k in m ==> !Unreadable(m[k], files)
  {
    forall k | k in m
      ensures !Unreadable(m[k], files)
    {
      var j :| 0 <= j < |keys| && keys[j] == k;
    }
  }

  /** The import loop over `keys` stopped at the `i`-th key: every entry
      before it was readable and is imported, its own entry is the first
      `file:` reference that cannot be read, `path` is that reference, and
      `now` is the dictionary as the loop left it. */
  predicate StoppedAt(m: map<string, string>, files: map<string, string>, keys: seq<string>, i: int,
                      now: Option<map<string, string>>, path: string)
  {
    && 0 <= i < |keys|
    && (forall j :: 0 <= j < |keys| ==> keys[j] in m)
    && (forall j :: 0 <= j < i ==> !Unreadable(m[keys[j]], files))
    && Unreadable(m[keys[i]], files)
    && path == FilePath(m[keys[i]]).value
    && now == Some(PartlyImported(m, files, keys[..i]))
  }

  /** The import stops at one key only: the first unreadable one, with
      one dictionary and one reported path. */
  lemma StopIsUnique(m: map<string, string>, files: map<string, string>, keys: seq<string>,
                     i: int, now: Option<map<string, string>>, path: string,
                     i': int, now': Option<map<string, string>>, path': string)
    requires StoppedAt(m, files, keys, i, now, path)
    requires StoppedAt(m, files, keys, i', now', path')
    ensures i == i' && now == now' && path == path'
  {
  }

  /** `https://wordpress.org/plugins/wp-json/plugins/v1/plugin/${ pluginSlug }/e2e` */
  function Endpoint(pluginSlug: string): string {
    "https://wordpress.org/plugins/wp-json/plugins/v1/plugin/" + pluginSlug + "/e2e"
  }

  /** How `wporgHttpCallback` ended: it rejected when a file could not be
      read, returned without posting when there is no secret, or posted the
      dictionary with the secret as bearer token. */
  datatype CallbackResult =
    | ReadFailed(path: string)
    | NotPosted
    | Posted(endpoint: string, authorization: string, payload: Option<map<string, string>>)

  /** The dictionary `setOutput.output`, with the order in which its keys
      were first stored, which is the order `for ... in` visits them. */
  class OutputStore {
    var output: Option<map<string, string>>
    var keys: seq<string>

    ghost predicate Valid()
      reads this
    {
      && (output.None? ==> keys == [])
      && (output.Some? ==> forall k :: k in output.value <==> k in keys)
      && (forall i, j :: 0 <= i < j < |keys| ==> keys[i] != keys[j])
    }

    constructor ()
      ensures Valid() && output == None && keys == []
    {
      output := None;
      keys := [];
    }

    /** `setOutput(field = false, value = false)`: returns the dictionary,
        which is still undefined when nothing has been stored yet. */
    method SetOutput(field: Option<string>, value: Option<JsValue>) returns (r: Option<map<string, string>>)
      requires Valid()
      modifies this
      ensures Valid()
      ensures output == Store(old(output), field, value)
      ensures keys == if Truthy(field) && field.value !in old(output).GetOr(map[])
                      then old(keys) + [field.value] else old(keys)
      ensures r == output
    {
      if Truthy(field) {
        var name := field.value;
        var current := output.GetOr(map[]);
        var v := value.GetOr(JsBool(false));
        if v.JsString? {
          current := current[name := v.s];
        } else {
          current := current[name := JsonText(v)];
        }
        if name !in output.GetOr(map[]) {
          keys := keys + [name];
        }
        output := Some(current);
      }
      r := output;
    }

    /** The `for ... in` loop of `wporgHttpCallback`: each `file:` entry is
        replaced, in place, by the contents of the named file; the first
        file that cannot be read rejects the callback with the entries
        visited so far already replaced. */
    method ImportFiles(files: map<string, string>) returns (failed: Option<string>)
      requires Valid() && output.Some?
      modifies this
      ensures Valid() && keys == old(keys)
      ensures failed.Some? ==> exists i :: StoppedAt(old(output).value, files, keys, i, output, failed.value)
      ensures failed.None? ==> forall k :: k in old(output).value ==> !Unreadable(old(output).value[k], files)
      ensures failed.None? ==> output == Some(PartlyImported(old(output).value, files, keys))
    {
      ghost var original := output.value;
      assert PartlyImported(original, files, []) == original;
      var i := 0;
      while i < |keys|
        invariant 0 <= i <= |keys|
        invariant Valid() && keys == old(keys)
        invariant output == Some(PartlyImported(original, files, keys[..i]))
        invariant forall j :: 0 <= j < i ==> !Unreadable(original[keys[j]], files)
        invariant forall k :: k in original <==> k in keys
      {
        var missing := ImportEntryAt(files, i, original);
        if missing.Some? {
          assert StoppedAt(original, files, keys, i, output, missing.value);
          return missing;
        }
        i := i + 1;
      }
      assert keys[..i] == keys;
      EveryKeyVisited(original, files, keys);
      failed := None;
    }

    /** One pass of that loop, over the `i`-th key: a `file:` reference to
        a file that cannot be read leaves the dictionary as it is and is
        reported; otherwise the entry is imported. */
    method ImportEntryAt(files: map<string, string>, i: nat, ghost original: map<string, string>) returns (missing: Option<string>)
      requires Valid() && i < |keys|
      requires forall k :: k in original <==> k in keys
      requires output == Some(PartlyImported(original, files, keys[..i]))
      modifies this
      ensures Valid() && keys == old(keys)
      ensures missing.Some? ==> output == old(output) && Unreadable(original[keys[i]], files)
      ensures missing.Some? ==> missing.value == FilePath(original[keys[i]]).value
      ensures missing.None? ==> !Unreadable(original[keys[i]], files)
      ensures missing.None? ==> output == Some(PartlyImported(original, files, keys[..i + 1]))
    {
      var field := keys[i];
      ImportStepAt(original, files, keys, i);
      var file := FilePath(output.value[field]);
      if file.Some? {
        if file.value !in files {
          return Some(file.value);
        }
        output := Some(output.value[field := files[file.value]]);
      } else {
        assert output.value[field := ImportEntry(original[field], files)] == output.value;
      }
      missing := None;
    }

    /** `wporgHttpCallback(pluginSlug)`. `files` gives the base64 contents
        of the files that can be read, `secret` the `WPORG_SECRET`
        environment variable. The rewriting is done in the dictionary
        itself, since `setOutput()` returns it and not a copy. */
    method WporgHttpCallback(pluginSlug: string, files: map<string, string>, secret: Option<string>) returns (res: CallbackResult)
      requires Valid()
      modifies this
      ensures Valid() && keys == old(keys)
      ensures output.Some? <==> old(output).Some?
      ensures res.ReadFailed? ==> old(output).Some?
      ensures res.ReadFailed? ==> exists i :: StoppedAt(old(output).value, files, keys, i, output, res.path)
      ensures !res.ReadFailed? ==> old(output).None? ==> output == None
      ensures !res.ReadFailed? && old(output).Some? ==>
        (forall k :: k in old(output).value ==> !Unreadable(old(output).value[k], files))
        && output == Some(PartlyImported(old(output).value, files, keys))
      ensures !res.ReadFailed? ==> (res.NotPosted? <==> !Truthy(secret))
      ensures res.Posted? ==> res == Posted(Endpoint(pluginSlug), "BEARER " + secret.value, output)
    {
      if output.Some? {
        var failed := ImportFiles(files);
        if failed.Some? {
          return ReadFailed(failed.value);
        }
      }
      if !Truthy(secret) {
        return NotPosted;
      }
      res := Posted(Endpoint(pluginSlug), "BEARER " + secret.value, output);
    }
  }
}
