/**
 * The few Go string primitives the collector relies on: `strings.ToLower`,
 * `strings.HasPrefix`, `strings.HasSuffix`, `strings.TrimSuffix` and the
 * built-in `<` on strings. Go compares strings byte by byte over their UTF-8
 * encoding, which orders them exactly as their code points; `Less` is that
 * lexicographic order on `seq<char>`.
 */
module GoStrings {

  /** Case folding of one character (ASCII letters only). */
  function LowerChar(c: char): char {
    if 'A' <= c <= 'Z' then (c as int + 32) as char else c
  }

  predicate IsLowerChar(c: char) {
    !('A' <= c <= 'Z')
  }

  /** `strings.ToLower`: folds every character and keeps the length. */
  function ToLower(s: string): string {
    seq(|s|, i requires 0 <= i < |s| => LowerChar(s[i]))
  }

  /** A string with no upper-case letter. */
  predicate IsLower(s: string) {
    forall i :: 0 <= i < |s| ==> IsLowerChar(s[i])
  }

  lemma ToLowerIsLower(s: string)
    ensures IsLower(ToLower(s))
  {
  }

  /** Folding a string that is already lower-case leaves it as it is. */
  lemma LowerFixpoint(s: string)
    requires IsLower(s)
    ensures ToLower(s) == s
  {
  }

  lemma ToLowerIdempotent(s: string)
    ensures ToLower(ToLower(s)) == ToLower(s)
  {
    ToLowerIsLower(s);
    LowerFixpoint(ToLower(s));
  }

  predicate HasPrefix(s: string, prefix: string) {
    |prefix| <= |s| && s[..|prefix|] == prefix
  }

  predicate HasSuffix(s: string, suffix: string) {
    |suffix| <= |s| && s[|s| - |suffix|..] == suffix
  }

  /** `strings.TrimSuffix`: drops `suffix` once when `s` ends with it. */
  function TrimSuffix(s: string, suffix: string): (r: string)
    ensures HasSuffix(s, suffix) ==> r + suffix == s
    ensures !HasSuffix(s, suffix) ==> r == s
  {
    if HasSuffix(s, suffix) then s[..|s| - |suffix|] else s
  }

  /** Go's `a < b` on strings: lexicographic, a proper prefix comes first. */
  function Less(a: string, b: string): bool {
    if a == [] then b != []
    else if b == [] then false
    else if a[0] != b[0] then a[0] < b[0]
    else Less(a[1..], b[1..])
  }

  lemma {:induction false} LessIrreflexive(a: string)
    ensures !Less(a, a)
  {
    if a != [] {
      LessIrreflexive(a[1..]);
    }
  }

  lemma {:induction false} LessAsymmetric(a: string, b: string)
    requires Less(a, b)
    ensures !Less(b, a)
  {
    if a != [] && b != [] && a[0] == b[0] {
      LessAsymmetric(a[1..], b[1..]);
    }
  }

  lemma {:induction false} LessTransitive(a: string, b: string, c: string)
    requires Less(a, b) && Less(b, c)
    ensures Less(a, c)
  {
    if a != [] && a[0] == b[0] && b[0] == c[0] {
      LessTransitive(a[1..], b[1..], c[1..]);
    }
  }

  /** Two different strings are always ordered one way or the other. */
  lemma {:induction false} LessTotal(a: string, b: string)
    requires a != b
    ensures Less(a, b) || Less(b, a)
  {
    if a != [] && b != [] && a[0] == b[0] {
      assert a == [a[0]] + a[1..] && b == [b[0]] + b[1..];
      LessTotal(a[1..], b[1..]);
    }
  }

  /** "Not less than" is transitive, so sorting by `Less` is well defined. */
  lemma NotLessTransitive(a: string, b: string, c: string)
    requires !Less(b, a) && !Less(c, b)
    ensures !Less(c, a)
  {
    if a != b && b != c {
      LessTotal(a, b);
      LessTotal(b, c);
      LessTransitive(a, b, c);
      LessAsymmetric(a, c);
    }
  }
}
