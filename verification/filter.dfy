/** The notice-type filter that `scan` applies to every matched line: a
    wildcard, a case-insensitive comparison with the requested type, and the
    same comparison against the type with `REMOTE` in front of it unless
    remote notices are being ignored. Case-insensitivity is Go's
    `strings.EqualFold`, here restricted to ASCII letters. */
module SnoteFilter {

  /** The two settings the filter reads: the `-snote` type (`*` for all)
      and the `-ignore-remote` switch. */
  datatype Filter = Filter(snoteType: string, ignoreRemote: bool)

  /** The type that selects every notice. */
  const Wildcard: string := "*"

  /** The prefix a notice relayed from another server carries. */
  const RemotePrefix: string := "REMOTE"

  predicate IsUpper(c: char) {
    'A' <= c <= 'Z'
  }

  /** Simple case folding of one character, ASCII letters only. */
  function FoldChar(c: char): (r: char)
    ensures IsUpper(c) ==> r as int == c as int + 32
    ensures !IsUpper(c) ==> r == c
    ensures !IsUpper(r)
  {
    if IsUpper(c) then (c as int + 32) as char else c
  }

  /** The whole string folded, an independent way to say what EqualFold
      compares. */
  function Lower(s: string): (r: string)
    ensures |r| == |s|
    ensures forall k :: 0 <= k < |s| ==> r[k] == FoldChar(s[k])
  {
    seq(|s|, k requires 0 <= k < |s| => FoldChar(s[k]))
  }

  /** Folding distributes over concatenation. */
  lemma LowerConcat(a: string, b: string)
    ensures Lower(a + b) == Lower(a) + Lower(b)
  {
  }

  /** `strings.EqualFold`: same length, and equal character by character
      once both are folded. It compares exactly the lower-cased forms. */
  predicate EqualFold(a: string, b: string): (r: bool)
    ensures r <==> Lower(a) == Lower(b)
  {
    assert Lower(a) == Lower(b) ==> forall k :: 0 <= k < |a| ==> Lower(a)[k] == Lower(b)[k];
    |a| == |b| && forall k :: 0 <= k < |a| ==> FoldChar(a[k]) == FoldChar(b[k])
  }

  /** The condition `scan` tests on the captured `snote` before a record is
      emitted: the wildcard, the requested type up to case, or (unless remote
      notices are ignored) `remote` followed by the requested type, up to
      case. */
  predicate Accept(f: Filter, snote: string): (r: bool)
    ensures r <==> || f.snoteType == Wildcard
                   || Lower(snote) == Lower(f.snoteType)
                   || (!f.ignoreRemote && Lower(snote) == "remote" + Lower(f.snoteType))
  {
    LowerConcat(RemotePrefix, f.snoteType);
    assert Lower(RemotePrefix) == "remote";
    || f.snoteType == Wildcard
    || EqualFold(snote, f.snoteType)
    || (!f.ignoreRemote && EqualFold(snote, RemotePrefix + f.snoteType))
  }

  // ---------------------------------------------------------------------
  // Case-insensitive equality
  // ---------------------------------------------------------------------

  /** EqualFold is an equivalence relation. */
  lemma EqualFoldEquivalence(a: string, b: string, c: string)
    ensures EqualFold(a, a)
    ensures EqualFold(a, b) ==> EqualFold(b, a)
    ensures EqualFold(a, b) && EqualFold(b, c) ==> EqualFold(a, c)
  {
  }

  /** Strings that differ only in the case of their letters compare equal. */
  lemma EqualFoldIgnoresCase(a: string, b: string)
    requires |a| == |b|
    requires forall k :: 0 <= k < |a| ==> a[k] == b[k] || FoldChar(a[k]) == b[k] || a[k] == FoldChar(b[k])
    ensures EqualFold(a, b)
  {
    forall k | 0 <= k < |a|
      ensures FoldChar(a[k]) == FoldChar(b[k])
    {
      assert FoldChar(FoldChar(a[k])) == FoldChar(a[k]);
      assert FoldChar(FoldChar(b[k])) == FoldChar(b[k]);
    }
  }

  /** Equal prefixes may be dropped from, or put in front of, both sides. */
  lemma EqualFoldPrefix(p: string, a: string, b: string)
    ensures EqualFold(p + a, p + b) <==> EqualFold(a, b)
  {
    if EqualFold(p + a, p + b) {
      forall k | 0 <= k < |a|
        ensures FoldChar(a[k]) == FoldChar(b[k])
      {
        assert (p + a)[|p| + k] == a[k];
        assert (p + b)[|p| + k] == b[k];
      }
    }
    if EqualFold(a, b) {
      forall k | 0 <= k < |p + a|
        ensures FoldChar((p + a)[k]) == FoldChar((p + b)[k])
      {
        if k >= |p| {
          assert FoldChar(a[k - |p|]) == FoldChar(b[k - |p|]);
        }
      }
    }
  }

  // ---------------------------------------------------------------------
  // The filter
  // ---------------------------------------------------------------------

  /** The wildcard type lets every notice through, whatever the switch. */
  lemma WildcardAcceptsAll(ignoreRemote: bool, snote: string)
    ensures Accept(Filter(Wildcard, ignoreRemote), snote)
  {
  }

  /** With remote notices ignored, a named type is a plain case-insensitive
      comparison. */
  lemma AcceptIgnoringRemote(t: string, snote: string)
    requires t != Wildcard
    ensures Accept(Filter(t, true), snote) <==> EqualFold(snote, t)
  {
  }

  /** A notice named after the requested type (in any case) is accepted. */
  lemma AcceptsOwnType(f: Filter, snote: string)
    requires EqualFold(snote, f.snoteType)
    ensures Accept(f, snote)
  {
  }

  /** The remote variant of the requested type is accepted exactly when remote
      notices are not ignored (or the type is the wildcard). */
  lemma RemoteVariant(f: Filter, x: string)
    requires EqualFold(x, f.snoteType)
    ensures Accept(f, RemotePrefix + x) <==> !f.ignoreRemote || f.snoteType == Wildcard
  {
    EqualFoldPrefix(RemotePrefix, x, f.snoteType);
    if f.ignoreRemote {
      assert |RemotePrefix + x| == |f.snoteType| + 6;
    }
  }

  /** Accept looks at the notice type only up to case. */
  lemma AcceptUpToCase(f: Filter, a: string, b: string)
    requires EqualFold(a, b)
    ensures Accept(f, a) <==> Accept(f, b)
  {
    EqualFoldEquivalence(a, b, f.snoteType);
    EqualFoldEquivalence(b, a, f.snoteType);
    EqualFoldEquivalence(a, b, RemotePrefix + f.snoteType);
    EqualFoldEquivalence(b, a, RemotePrefix + f.snoteType);
  }

  /** Ignoring remote notices only ever narrows the selection, and only by
      the remote variants. */
  lemma IgnoreRemoteNarrows(t: string, snote: string)
    ensures Accept(Filter(t, true), snote) ==> Accept(Filter(t, false), snote)
    ensures (Accept(Filter(t, false), snote) && !Accept(Filter(t, true), snote)) ==> EqualFold(snote, RemotePrefix + t)
  {
  }
}
