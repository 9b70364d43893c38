/** The string operations the reader relies on: Python's `sep in s`, `s.split(sep)` and
    `sep.join(parts)`, and the nonterminal of a production rule, `rule.split(' ->')`
    unpacked into two names. */
module Text {
  import opened Wrappers
  import opened Errors

  /** `sep` occurs in `s` starting at index `i`. */
  predicate OccursAt(s: string, sep: string, i: nat) {
    i + |sep| <= |s| && s[i..i + |sep|] == sep
  }

  /** Python's `sep in s`. */
  predicate Contains(s: string, sep: string) {
    exists i: nat | i <= |s| :: OccursAt(s, sep, i)
  }

  /** Occurrences in a suffix are occurrences in the whole string, shifted. */
  lemma OccursAtDrop(s: string, sep: string, k: nat)
    requires k <= |s|
    ensures forall j: nat :: OccursAt(s[k..], sep, j) ==> OccursAt(s, sep, j + k)
    ensures forall j: nat :: j >= k && OccursAt(s, sep, j) ==> OccursAt(s[k..], sep, j - k)
  {
    forall j: nat | j >= k ensures OccursAt(s, sep, j) ==> OccursAt(s[k..], sep, j - k) {
      if j + |sep| <= |s| {
        assert s[k..][j - k..j - k + |sep|] == s[j..j + |sep|];
      }
    }
  }

  /** A prefix that ends before the first occurrence of `sep` does not contain `sep`. */
  lemma PrefixBeforeFirst(s: string, sep: string, i: nat)
    requires |sep| > 0 && i <= |s|
    requires forall j: nat :: j < i ==> !OccursAt(s, sep, j)
    ensures !Contains(s[..i], sep)
  {
    forall j: nat | OccursAt(s[..i], sep, j) ensures false {
      assert s[..i][j..j + |sep|] == s[j..j + |sep|];
      assert OccursAt(s, sep, j);
    }
  }

  /** The first index at which `sep` occurs in `s` (Python's `s.find(sep)`, with None for -1). */
  function Find(s: string, sep: string): (r: Option<nat>)
    requires |sep| > 0
    ensures r.Some? ==> OccursAt(s, sep, r.value)
    ensures r.Some? ==> forall j: nat :: j < r.value ==> !OccursAt(s, sep, j)
    ensures r.None? <==> !Contains(s, sep)
    decreases |s|
  {
    if |s| < |sep| then
      None
    else if s[..|sep|] == sep then
      Some(0)
    else
      OccursAtDrop(s, sep, 1);
      match Find(s[1..], sep)
      case None => None
      case Some(i) => Some(i + 1)
  }

  /** Python's `s.split(sep)`: the pieces between the occurrences of `sep`, scanned left to right. */
  function Split(s: string, sep: string): (parts: seq<string>)
    requires |sep| > 0
    ensures |parts| >= 1
    ensures forall k :: 0 <= k < |parts| ==> !Contains(parts[k], sep)
    decreases |s|
  {
    match Find(s, sep)
    case None => [s]
    case Some(i) =>
      PrefixBeforeFirst(s, sep, i);
      [s[..i]] + Split(s[i + |sep|..], sep)
  }

  /** Python's `sep.join(parts)`. */
  function Join(parts: seq<string>, sep: string): string
    decreases |parts|
  {
    if |parts| == 0 then []
    else if |parts| == 1 then parts[0]
    else parts[0] + sep + Join(parts[1..], sep)
  }

  /** Splitting and joining again on the same separator gives back the string. */
  lemma {:induction false} JoinSplit(s: string, sep: string)
    requires |sep| > 0
    ensures Join(Split(s, sep), sep) == s
    decreases |s|
  {
    match Find(s, sep)
    case None =>
    case Some(i) =>
      var rest := Split(s[i + |sep|..], sep);
      JoinSplit(s[i + |sep|..], sep);
      assert Split(s, sep) == [s[..i]] + rest;
      assert ([s[..i]] + rest)[1..] == rest;
      assert s == s[..i] + s[i..i + |sep|] + s[i + |sep|..];
  }

  /** A split yields one piece exactly when the separator does not occur. */
  lemma SplitSingle(s: string, sep: string)
    requires |sep| > 0
    ensures |Split(s, sep)| == 1 <==> Find(s, sep).None?
    ensures |Split(s, sep)| == 1 ==> Split(s, sep) == [s]
  {
    match Find(s, sep)
    case None =>
    case Some(i) =>
      assert |Split(s, sep)| == 1 + |Split(s[i + |sep|..], sep)|;
  }

  /** `last` ends `s`, and either is all of `s` or follows an occurrence of `sep`. */
  predicate FinalPiece(s: string, sep: string, last: string) {
    && |last| <= |s| && s[|s| - |last|..] == last
    && (|last| == |s| || (|last| + |sep| <= |s| && OccursAt(s, sep, |s| - |last| - |sep|)))
  }

  /** A final piece of a suffix is a final piece of the whole string, provided that, when it
      is the entire suffix, the suffix starts right after an occurrence of `sep`. */
  lemma FinalPieceDrop(s: string, sep: string, k: nat, last: string)
    requires |sep| <= k <= |s| && OccursAt(s, sep, k - |sep|)
    requires FinalPiece(s[k..], sep, last)
    ensures FinalPiece(s, sep, last)
  {
    assert s[|s| - |last|..] == s[k..][|s| - k - |last|..];
    if |last| < |s| - k {
      OccursAtDrop(s, sep, k);
    }
  }

  /** The last piece of a split is a final piece of the string. */
  lemma {:induction false} SplitLast(s: string, sep: string)
    requires |sep| > 0
    ensures FinalPiece(s, sep, Split(s, sep)[|Split(s, sep)| - 1])
    decreases |s|
  {
    match Find(s, sep)
    case None =>
    case Some(i) =>
      var k := i + |sep|;
      var rest := Split(s[k..], sep);
      SplitLast(s[k..], sep);
      assert Split(s, sep) == [s[..i]] + rest;
      FinalPieceDrop(s, sep, k, rest[|rest| - 1]);
  }

  /** The arrow that separates a rule's left-hand side from its right-hand side. */
  const ARROW: string := " ->"

  /** The arrow occurs in the rule at index `i` and nowhere else. */
  predicate OnlyArrowAt(rule: string, i: nat) {
    OccursAt(rule, ARROW, i) && forall j: nat | j <= |rule| :: OccursAt(rule, ARROW, j) ==> j == i
  }

  /** The rule has exactly one occurrence of the arrow. */
  predicate SingleArrow(rule: string) {
    exists i: nat | i <= |rule| :: OnlyArrowAt(rule, i)
  }

  /** Two different occurrences of the arrow never overlap. */
  lemma ArrowDisjoint(s: string, i: nat, j: nat)
    requires OccursAt(s, ARROW, i) && OccursAt(s, ARROW, j) && i != j
    ensures i + |ARROW| <= j || j + |ARROW| <= i
  {
    assert s[i..i + 3][1] == s[i + 1] && s[i..i + 3][2] == s[i + 2] && s[i..i + 3][0] == s[i];
    assert s[j..j + 3][1] == s[j + 1] && s[j..j + 3][2] == s[j + 2] && s[j..j + 3][0] == s[j];
  }

  /** `nonterminal, _ = rule.split(' ->')`: the text before the arrow, or the ValueError that
      unpacking raises when the split does not give exactly two pieces. */
  function Nonterminal(rule: string): (r: Result<string, ReaderError>)
    ensures r.Success? ==>
      && OccursAt(rule, ARROW, |r.value|)
      && rule[..|r.value|] == r.value
      && !Contains(r.value, ARROW)
      && !Contains(rule[|r.value| + |ARROW|..], ARROW)
    ensures r.Failure? ==> r.error == UnpackError(rule)
  {
    var parts := Split(rule, ARROW);
    if |parts| == 2 then
      var i := Find(rule, ARROW).value;
      SplitSingle(rule[i + |ARROW|..], ARROW);
      Success(parts[0])
    else
      Failure(UnpackError(rule))
  }

  /** When unpacking succeeds, the arrow occurs once, right after the nonterminal. */
  lemma NonterminalArrowUnique(rule: string)
    requires Nonterminal(rule).Success?
    ensures OnlyArrowAt(rule, |Nonterminal(rule).value|)
  {
    var i := |Nonterminal(rule).value|;
    OccursAtDrop(rule, ARROW, i + |ARROW|);
    forall j: nat | j <= |rule| && OccursAt(rule, ARROW, j) ensures j == i {
      if j != i {
        ArrowDisjoint(rule, i, j);
      }
    }
  }

  /** A rule with a single arrow unpacks into the text before that arrow. */
  lemma SingleArrowUnpacks(rule: string, i: nat)
    requires OnlyArrowAt(rule, i)
    ensures Nonterminal(rule) == Success(rule[..i])
  {
    assert Find(rule, ARROW) == Some(i);
    var rest := rule[i + |ARROW|..];
    OccursAtDrop(rule, ARROW, i + |ARROW|);
    SplitSingle(rest, ARROW);
    assert Split(rule, ARROW) == [rule[..i]] + Split(rest, ARROW);
  }

  /** Unpacking succeeds exactly when the rule holds one arrow. */
  lemma NonterminalDefinedIff(rule: string)
    ensures Nonterminal(rule).Success? <==> SingleArrow(rule)
  {
    if Nonterminal(rule).Success? {
      NonterminalArrowUnique(rule);
    }
    if SingleArrow(rule) {
      var i: nat :| i <= |rule| && OnlyArrowAt(rule, i);
      SingleArrowUnpacks(rule, i);
    }
  }

  /** For a rule written `lhs -> rhs` with no other arrow, the nonterminal is `lhs`. */
  lemma NonterminalOfRule(lhs: string, rhs: string)
    requires !Contains(lhs, ARROW) && !Contains(rhs, ARROW)
    ensures Nonterminal(lhs + ARROW + rhs) == Success(lhs)
  {
    var rule := lhs + ARROW + rhs;
    var n := |lhs|;
    assert rule[n..n + |ARROW|] == ARROW;
    OccursAtDrop(rule, ARROW, n + |ARROW|);
    assert rule[n + |ARROW|..] == rhs;
    forall j: nat | j <= |rule| && OccursAt(rule, ARROW, j) ensures j == n {
      if j != n {
        ArrowDisjoint(rule, n, j);
        if j < n {
          assert rule[j..j + |ARROW|] == lhs[j..j + |ARROW|];
          assert OccursAt(lhs, ARROW, j);
        }
      }
    }
    SingleArrowUnpacks(rule, n);
    assert rule[..n] == lhs;
  }
}
