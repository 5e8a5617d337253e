/**
 * The merge loop of package-collector.go (lines 211-239). Records are folded,
 * in processing order, into a map keyed by `CanonicalKey(gitRepo)`. A new key
 * stores the record as it is. A key whose stored entry has a non-empty
 * `gitRepo` absorbs the record: its tags are appended, the provenance bits
 * OR-ed and only nil links filled. Everything else keeps its first-seen value.
 * An entry with an empty `gitRepo` fails that guard, so a later record with
 * the same (empty) key replaces it.
 */
module MergeEngine {
  import opened Wrappers
  import opened GoStrings
  import opened GitKey
  import opened Packages

  function Key(pkg: Package): string {
    CanonicalKey(pkg.gitRepo)
  }

  /** The fields the merge branch never writes. */
  predicate SameIdentity(a: Package, b: Package) {
    && a.author == b.author
    && a.displayName == b.displayName
    && a.description == b.description
    && a.rootFile == b.rootFile
    && a.gitRepo == b.gitRepo
  }

  function FillLink(stored: Option<string>, incoming: Option<string>): Option<string> {
    if stored == None then incoming else stored
  }

  /** Each link is filled independently, and only where the stored one is nil. */
  function FillLinks(stored: Links, incoming: Links): (r: Links)
    ensures forall kind :: Link(r, kind) == if Link(stored, kind).Some? then Link(stored, kind) else Link(incoming, kind)
  {
    Links(
      FillLink(stored.github, incoming.github),
      FillLink(stored.astrolabe, incoming.astrolabe),
      FillLink(stored.aquila, incoming.aquila))
  }

  /** The duplicate branch (lines 219-233) as a reducer on one stored entry. */
  function MergeInto(stored: Package, pkg: Package): (r: Package)
    ensures SameIdentity(r, stored)
    ensures r.tags == stored.tags + pkg.tags
    ensures r.source == stored.source | pkg.source
    ensures r.links == FillLinks(stored.links, pkg.links)
  {
    stored.(tags := stored.tags + pkg.tags, source := stored.source | pkg.source, links := FillLinks(stored.links, pkg.links))
  }

  /** One iteration of the loop: only the record's own key changes. */
  function FoldStep(packages: map<string, Package>, pkg: Package): (r: map<string, Package>)
    ensures r.Keys == packages.Keys + {Key(pkg)}
    ensures forall k :: k in packages && k != Key(pkg) ==> r[k] == packages[k]
  {
    var key := Key(pkg);
    if key in packages && packages[key].gitRepo != "" then packages[key := MergeInto(packages[key], pkg)]
    else packages[key := pkg]
  }

  /** The whole loop, as a left fold over the records. */
  function Fold(raw: seq<Package>): map<string, Package> {
    if raw == [] then map[] else FoldStep(Fold(raw[..|raw| - 1]), raw[|raw| - 1])
  }

  /** The three nil checks of the duplicate branch, in source order. */
  method FillNilLinks(stored: Links, incoming: Links) returns (links: Links)
    ensures links == FillLinks(stored, incoming)
  {
    links := stored;
    if links.aquila == None {
      links := links.(aquila := incoming.aquila);
    }
    if links.astrolabe == None {
      links := links.(astrolabe := incoming.astrolabe);
    }
    if links.github == None {
      links := links.(github := incoming.github);
    }
  }

  /** One pass of the loop body: read the entry (the zero value when absent), update it, write it back. */
  method MergeRecord(packages: map<string, Package>, pkg: Package) returns (updated: map<string, Package>)
    ensures updated == FoldStep(packages, pkg)
  {
    var uniquePath := ToLower(UniqueGitPath(pkg.gitRepo));
    assert uniquePath == Key(pkg);
    var stored := if uniquePath in packages then packages[uniquePath] else ZeroPackage;
    if stored.gitRepo != "" {
      var links := FillNilLinks(stored.links, pkg.links);
      stored := stored.(tags := stored.tags + pkg.tags, source := stored.source | pkg.source, links := links);
    } else {
      stored := pkg;
    }
    updated := packages[uniquePath := stored];
  }

  /** The merge loop over all records in processing order. */
  method MergePackages(raw: seq<Package>) returns (packages: map<string, Package>)
    ensures packages == Fold(raw)
  {
    packages := map[];
    for i := 0 to |raw|
      invariant packages == Fold(raw[..i])
    {
      packages := MergeRecord(packages, raw[i]);
      assert raw[..i + 1][..i] == raw[..i];
    }
    assert raw[..|raw|] == raw;
  }

  /** Every entry is stored under the key of its own `gitRepo`. */
  lemma {:induction false} FoldKeyConsistent(raw: seq<Package>)
    ensures forall k :: k in Fold(raw) ==> Key(Fold(raw)[k]) == k
  {
    if raw != [] {
      FoldKeyConsistent(raw[..|raw| - 1]);
    }
  }

  /** One entry per distinct key of the input, and no other. */
  lemma {:induction false} FoldKeys(raw: seq<Package>)
    ensures forall k :: k in Fold(raw) <==> exists pkg :: pkg in raw && Key(pkg) == k
  {
    if raw != [] {
      var init, last := raw[..|raw| - 1], raw[|raw| - 1];
      FoldKeys(init);
      assert raw == init + [last];
      assert Fold(raw) == FoldStep(Fold(init), last);
      forall k | k in Fold(raw)
        ensures exists pkg :: pkg in raw && Key(pkg) == k
      {
        if k != Key(last) {
          var pkg :| pkg in init && Key(pkg) == k;
          assert pkg in raw;
        }
      }
    }
  }

  /** The guard `stored.GitRepo != ""` holds exactly for a stored, non-empty key. */
  lemma MergeGuard(raw: seq<Package>, k: string)
    ensures (k in Fold(raw) && Fold(raw)[k].gitRepo != "") <==> (k in Fold(raw) && k != "")
  {
    FoldKeyConsistent(raw);
    if k in Fold(raw) {
      EmptyKeyIffEmptyUrl(Fold(raw)[k].gitRepo);
    }
  }

  /** The records with key `k`, in processing order. */
  function Matching(raw: seq<Package>, k: string): seq<Package> {
    if raw == [] then []
    else Matching(raw[..|raw| - 1], k) + if Key(raw[|raw| - 1]) == k then [raw[|raw| - 1]] else []
  }

  lemma {:induction false} MatchingAppend(a: seq<Package>, b: seq<Package>, k: string)
    ensures Matching(a + b, k) == Matching(a, k) + Matching(b, k)
  {
    if b == [] {
      assert a + b == a;
    } else {
      var b' := b[..|b| - 1];
      assert (a + b)[..|a + b| - 1] == a + b';
      MatchingAppend(a, b', k);
    }
  }

  lemma {:induction false} MatchingMembers(raw: seq<Package>, k: string)
    ensures forall pkg :: pkg in Matching(raw, k) <==> pkg in raw && Key(pkg) == k
  {
    if raw != [] {
      var init := raw[..|raw| - 1];
      MatchingMembers(init, k);
      assert raw == init + [raw[|raw| - 1]];
    }
  }

  /** Folding a non-empty run of same-key records, as the loop does. */
  function MergeAll(ps: seq<Package>): Package
    requires ps != []
  {
    if |ps| == 1 then ps[0] else MergeInto(MergeAll(ps[..|ps| - 1]), ps[|ps| - 1])
  }

  /** One step at a non-empty key: a record with that key merges into a stored entry or starts one. */
  lemma KeyedStep(packages: map<string, Package>, pkg: Package, k: string)
    requires k in packages ==> packages[k].gitRepo != ""
    ensures Key(pkg) == k ==> k in FoldStep(packages, pkg)
    ensures Key(pkg) == k && k in packages ==> FoldStep(packages, pkg)[k] == MergeInto(packages[k], pkg)
    ensures Key(pkg) == k && k !in packages ==> FoldStep(packages, pkg)[k] == pkg
    ensures Key(pkg) != k ==> (k in FoldStep(packages, pkg) <==> k in packages)
    ensures Key(pkg) != k && k in packages ==> FoldStep(packages, pkg)[k] == packages[k]
  {
  }

  /** For a non-empty key, the entry is the merge of exactly the records with that key. */
  lemma {:induction false} FoldPerKey(raw: seq<Package>, k: string)
    requires k != ""
    ensures k in Fold(raw) <==> Matching(raw, k) != []
    ensures k in Fold(raw) ==> Matching(raw, k) != [] && Fold(raw)[k] == MergeAll(Matching(raw, k))
  {
    if raw != [] {
      var init, pkg := raw[..|raw| - 1], raw[|raw| - 1];
      FoldPerKey(init, k);
      MergeGuard(init, k);
      KeyedStep(Fold(init), pkg, k);
      var ps := Matching(init, k);
      if Key(pkg) != k {
        assert Matching(raw, k) == ps;
      } else {
        assert Matching(raw, k) == ps + [pkg];
        if ps != [] {
          assert (ps + [pkg])[..|ps|] == ps;
          assert MergeAll(ps + [pkg]) == MergeInto(MergeAll(ps), pkg);
        } else {
          assert MergeAll([pkg]) == pkg;
        }
      }
    }
  }

  /** One step at the empty key: an empty-URL record replaces the entry, any other record leaves it alone. */
  lemma EmptyKeyStep(packages: map<string, Package>, pkg: Package)
    requires "" in packages ==> packages[""].gitRepo == ""
    ensures Key(pkg) == "" ==> "" in FoldStep(packages, pkg) && FoldStep(packages, pkg)[""] == pkg
    ensures Key(pkg) != "" ==> ("" in FoldStep(packages, pkg) <==> "" in packages)
    ensures Key(pkg) != "" && "" in packages ==> FoldStep(packages, pkg)[""] == packages[""]
  {
  }

  /** Under the empty key no merge happens: the last empty-URL record is the entry. */
  lemma {:induction false} EmptyKeyLastWins(raw: seq<Package>)
    ensures "" in Fold(raw) <==> Matching(raw, "") != []
    ensures "" in Fold(raw) ==> Matching(raw, "") != [] && Fold(raw)[""] == Matching(raw, "")[|Matching(raw, "")| - 1]
  {
    if raw != [] {
      var init, pkg := raw[..|raw| - 1], raw[|raw| - 1];
      EmptyKeyLastWins(init);
      MergeGuard(init, "");
      EmptyKeyStep(Fold(init), pkg);
      if Key(pkg) == "" {
        assert Matching(raw, "") == Matching(init, "") + [pkg];
      } else {
        assert Matching(raw, "") == Matching(init, "");
      }
    }
  }

  /** Reference definitions over a run of records, first to last. */
  function SourceUnion(ps: seq<Package>): Source {
    if ps == [] then 0 else ps[0].source | SourceUnion(ps[1..])
  }

  function AllTags(ps: seq<Package>): seq<string> {
    if ps == [] then [] else ps[0].tags + AllTags(ps[1..])
  }

  /** The first link of this kind that any record of the run carries. */
  function FirstLink(ps: seq<Package>, kind: LinkKind): Option<string> {
    if ps == [] then None
    else if Link(ps[0].links, kind).Some? then Link(ps[0].links, kind)
    else FirstLink(ps[1..], kind)
  }

  lemma {:induction false} SourceUnionSnoc(ps: seq<Package>, q: Package)
    ensures SourceUnion(ps + [q]) == SourceUnion(ps) | q.source
  {
    if ps != [] {
      assert (ps + [q])[1..] == ps[1..] + [q];
      SourceUnionSnoc(ps[1..], q);
    }
  }

  lemma {:induction false} AllTagsSnoc(ps: seq<Package>, q: Package)
    ensures AllTags(ps + [q]) == AllTags(ps) + q.tags
  {
    if ps == [] {
      assert AllTags([q]) == q.tags + [];
    } else {
      assert (ps + [q])[1..] == ps[1..] + [q];
      AllTagsSnoc(ps[1..], q);
    }
  }

  lemma {:induction false} FirstLinkSnoc(ps: seq<Package>, q: Package, kind: LinkKind)
    ensures FirstLink(ps + [q], kind) == if FirstLink(ps, kind).Some? then FirstLink(ps, kind) else Link(q.links, kind)
  {
    if ps != [] {
      assert (ps + [q])[1..] == ps[1..] + [q];
      FirstLinkSnoc(ps[1..], q, kind);
    }
  }

  /** What folding a run produces: first-seen identity, OR of the bits, all tags, first link of each kind. */
  lemma {:induction false} MergeAllSpec(ps: seq<Package>)
    requires ps != []
    ensures SameIdentity(MergeAll(ps), ps[0])
    ensures MergeAll(ps).source == SourceUnion(ps)
    ensures MergeAll(ps).tags == AllTags(ps)
    ensures forall kind :: Link(MergeAll(ps).links, kind) == FirstLink(ps, kind)
  {
    if |ps| == 1 {
      assert ps[1..] == [];
      assert AllTags(ps) == ps[0].tags + [];
    } else {
      var init, q := ps[..|ps| - 1], ps[|ps| - 1];
      assert ps == init + [q];
      MergeAllSpec(init);
      SourceUnionSnoc(init, q);
      AllTagsSnoc(init, q);
      forall kind
        ensures Link(MergeAll(ps).links, kind) == FirstLink(ps, kind)
      {
        FirstLinkSnoc(init, q, kind);
      }
    }
  }

  /**
   * The entry for a non-empty key, in terms of the records carrying that key:
   * identity fields from the first, provenance the OR of all, tags all
   * appended in order, and each link the first one any of them set.
   */
  lemma MergedEntry(raw: seq<Package>, k: string)
    requires k != "" && k in Fold(raw)
    ensures Matching(raw, k) != []
    ensures SameIdentity(Fold(raw)[k], Matching(raw, k)[0])
    ensures Fold(raw)[k].source == SourceUnion(Matching(raw, k))
    ensures Fold(raw)[k].tags == AllTags(Matching(raw, k))
    ensures forall kind :: Link(Fold(raw)[k].links, kind) == FirstLink(Matching(raw, k), kind)
  {
    FoldPerKey(raw, k);
    MergeAllSpec(Matching(raw, k));
  }

  lemma {:induction false} MatchingNone(raw: seq<Package>, k: string)
    requires forall j :: 0 <= j < |raw| ==> Key(raw[j]) != k
    ensures Matching(raw, k) == []
  {
    if raw != [] {
      MatchingNone(raw[..|raw| - 1], k);
    }
  }

  /** When no earlier record has key `k`, record `i` heads the run of key `k`. */
  lemma MatchingStartsAt(raw: seq<Package>, i: int, k: string)
    requires 0 <= i < |raw| && Key(raw[i]) == k && Matching(raw[..i], k) == []
    ensures Matching(raw, k) != [] && Matching(raw, k)[0] == raw[i]
  {
    var before, pkg, after := raw[..i], raw[i], raw[i + 1..];
    assert raw == before + [pkg] + after;
    MatchingAppend(before + [pkg], after, k);
    MatchingAppend(before, [pkg], k);
    assert [pkg][..0] == [];
    assert Matching([pkg], k) == [pkg];
  }

  /** The first record with key `k` heads the records with that key. */
  lemma FirstMatch(raw: seq<Package>, i: int, k: string)
    requires 0 <= i < |raw| && Key(raw[i]) == k
    requires forall j :: 0 <= j < i ==> Key(raw[j]) != k
    ensures Matching(raw, k) != [] && Matching(raw, k)[0] == raw[i]
  {
    var before := raw[..i];
    forall j | 0 <= j < |before| ensures Key(before[j]) != k {
      assert before[j] == raw[j];
    }
    MatchingNone(before, k);
    MatchingStartsAt(raw, i, k);
  }

  /** First-seen wins: the first record with a non-empty key fixes that entry's identity fields. */
  lemma FirstSeenWins(raw: seq<Package>, i: int)
    requires 0 <= i < |raw| && Key(raw[i]) != ""
    requires forall j :: 0 <= j < i ==> Key(raw[j]) != Key(raw[i])
    ensures Key(raw[i]) in Fold(raw)
    ensures SameIdentity(Fold(raw)[Key(raw[i])], raw[i])
  {
    var k := Key(raw[i]);
    FirstMatch(raw, i, k);
    FoldPerKey(raw, k);
    MergeAllSpec(Matching(raw, k));
  }

  lemma OrMask(x: Source, y: Source, b: Source)
    ensures (x | y) & b != 0 <==> x & b != 0 || y & b != 0
  {
  }

  /** A provenance bit is set exactly when some record of the run has it: order does not matter. */
  lemma {:induction false} SourceUnionBits(ps: seq<Package>, b: Source)
    ensures SourceUnion(ps) & b != 0 <==> exists pkg :: pkg in ps && pkg.source & b != 0
  {
    if ps != [] {
      var rest := ps[1..];
      SourceUnionBits(rest, b);
      OrMask(ps[0].source, SourceUnion(rest), b);
      if SourceUnion(rest) & b != 0 {
        var pkg :| pkg in rest && pkg.source & b != 0;
        assert pkg in ps;
      }
      forall pkg | pkg in ps && pkg.source & b != 0
        ensures SourceUnion(ps) & b != 0
      {
        if pkg != ps[0] {
          assert pkg in rest;
        }
      }
    }
  }

  /** A provenance bit is set in a non-empty key's entry exactly when some input record with that key has it. */
  lemma MergedSourceBits(raw: seq<Package>, k: string, b: Source)
    requires k != "" && k in Fold(raw)
    ensures Fold(raw)[k].source & b != 0 <==> exists pkg :: pkg in raw && Key(pkg) == k && pkg.source & b != 0
  {
    MergedEntry(raw, k);
    SourceUnionBits(Matching(raw, k), b);
    MatchingMembers(raw, k);
  }

  /** The merge invents no tag: every tag of an entry comes from some record. */
  lemma {:induction false} FoldTagsFromInput(raw: seq<Package>)
    ensures forall k, t :: k in Fold(raw) && t in Fold(raw)[k].tags ==> exists pkg :: pkg in raw && t in pkg.tags
  {
    if raw != [] {
      var init, last := raw[..|raw| - 1], raw[|raw| - 1];
      FoldTagsFromInput(init);
      assert Fold(raw) == FoldStep(Fold(init), last);
      forall k, t | k in Fold(raw) && t in Fold(raw)[k].tags
        ensures exists pkg :: pkg in raw && t in pkg.tags
      {
        if k == Key(last) && t in last.tags {
          assert last in raw;
        } else {
          assert k in Fold(init) && t in Fold(init)[k].tags;
          var pkg :| pkg in init && t in pkg.tags;
          assert pkg in raw;
        }
      }
    }
  }
}
