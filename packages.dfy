/**
 * The records the collector passes around: `Package`, its `Links` and `Tag`,
 * and the provenance bits stored in `Package.Source`.
 */
module Packages {
  import opened Wrappers

  /**
   * Go's `int` Source field, as the bits that `|=` combines. Every record the
   * program builds carries one of the four flags below, so every OR of them
   * fits in the low four bits; the upper bits of the int stay zero.
   */
  type Source = bv4

  /** One bit per catalogue, assigned by `1 << iota` in declaration order. */
  const SrcGithub: Source := 1 << 0
  const SrcAquila: Source := 1 << 1
  const SrcAstrolabe: Source := 1 << 2
  const SrcZiglibs: Source := 1 << 3

  /** Pages about the package; each pointer may be nil. */
  datatype Links = Links(github: Option<string>, astrolabe: Option<string>, aquila: Option<string>)

  datatype LinkKind = Github | Astrolabe | Aquila

  function Link(links: Links, kind: LinkKind): Option<string> {
    match kind
    case Github => links.github
    case Astrolabe => links.astrolabe
    case Aquila => links.aquila
  }

  /** One package record; `gitRepo` is what duplicates are detected by. */
  datatype Package = Package(
    author: string,
    displayName: string,
    tags: seq<string>,
    gitRepo: string,
    rootFile: Option<string>,
    description: string,
    source: Source,
    links: Links)

  /** The zero value Go reads from a map for a key it does not hold. */
  const ZeroPackage := Package("", "", [], "", None, "", 0, Links(None, None, None))

  datatype Tag = Tag(name: string, description: string)

  predicate SingleBit(f: Source) {
    f != 0 && f & (f - 1) == 0
  }

  /** The four provenance flags are distinct single bits: OR-ing them loses nothing. */
  lemma SourceFlagsAreDistinctBits()
    ensures SrcGithub == 1 && SrcAquila == 2 && SrcAstrolabe == 4 && SrcZiglibs == 8
    ensures SingleBit(SrcGithub) && SingleBit(SrcAquila) && SingleBit(SrcAstrolabe) && SingleBit(SrcZiglibs)
    ensures SrcGithub & SrcAquila == 0 && SrcGithub & SrcAstrolabe == 0 && SrcGithub & SrcZiglibs == 0
    ensures SrcAquila & SrcAstrolabe == 0 && SrcAquila & SrcZiglibs == 0 && SrcAstrolabe & SrcZiglibs == 0
  {
  }
}
