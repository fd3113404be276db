/** Block types as the block editor's registry lists them. */
module BlockRegistry {
  import opened Strings

  /** A registered block type. `S` stands for the settings objects
      (`supports` and the settings that are not serializable, such as the
      `edit` component) whose contents the utilities never look at. */
  datatype BlockType<S> = BlockType(
    name: string,
    title: string,
    description: string,
    category: string,
    keywords: seq<string>,
    supports: S,
    otherSettings: map<string, S>)

  /** `name.startsWith('core')`: this also holds of names such as
      `corex/block`, which are therefore not third-party blocks. */
  predicate IsCoreBlock(name: string) {
    StartsWith(name, "core")
  }
}
