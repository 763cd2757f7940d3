/** C strings as the library compares them. A string is the characters before
    its terminator; an absent (NULL) string is None. */
module CStrings {
  import opened Sequences

  /** The sign of strcmp(a, b). */
  function StrCmp(a: string, b: string): int {
    if a == [] then (if b == [] then 0 else -1)
    else if b == [] then 1
    else if a[0] != b[0] then (if a[0] < b[0] then -1 else 1)
    else StrCmp(a[1..], b[1..])
  }

  /** round_strcmp: an absent first string is smaller than anything, even an absent second one. */
  function RoundStrCmp(a: Option<string>, b: Option<string>): int {
    if a.None? then -1
    else if b.None? then 1
    else StrCmp(a.value, b.value)
  }

  /** round_streq */
  predicate RoundStrEq(a: Option<string>, b: Option<string>) {
    a.Some? && b.Some? && RoundStrCmp(a, b) == 0
  }

  /** round_strlen */
  function RoundStrLen(a: Option<string>): nat {
    if a.None? then 0 else |a.value|
  }

  /** Lexicographic order, stated without recursion: a proper prefix comes first,
      otherwise the first difference decides. */
  ghost predicate LexLess(a: string, b: string) {
    exists k: nat :: k <= |a| && k < |b| && a[..k] == b[..k] && (k == |a| || a[k] < b[k])
  }

  /** A common first character does not matter to the order. */
  lemma LexLessTail(a: string, b: string)
    requires a != [] && b != [] && a[0] == b[0]
    ensures LexLess(a, b) <==> LexLess(a[1..], b[1..])
  {
    if LexLess(a[1..], b[1..]) {
      var k: nat :| k <= |a[1..]| && k < |b[1..]| && a[1..][..k] == b[1..][..k]
        && (k == |a[1..]| || a[1..][k] < b[1..][k]);
      assert a[..k + 1] == [a[0]] + a[1..][..k] && b[..k + 1] == [b[0]] + b[1..][..k];
    }
    if LexLess(a, b) {
      var k: nat :| k <= |a| && k < |b| && a[..k] == b[..k] && (k == |a| || a[k] < b[k]);
      assert a[1..][..k - 1] == a[..k][1..] && b[1..][..k - 1] == b[..k][1..];
    }
  }

  lemma {:induction false} StrCmpIsLexOrder(a: string, b: string)
    ensures StrCmp(a, b) < 0 <==> LexLess(a, b)
    ensures StrCmp(a, b) == 0 <==> a == b
  {
    if a != [] && b != [] && a[0] == b[0] {
      StrCmpIsLexOrder(a[1..], b[1..]);
      LexLessTail(a, b);
      assert a == [a[0]] + a[1..] && b == [b[0]] + b[1..];
    } else {
      assert a[..0] == b[..0];
      forall k: nat | 0 < k <= |a| && k <= |b|
        ensures a[..k] != b[..k]
      {
        assert a[..k][0] == a[0] && b[..k][0] == b[0];
      }
    }
  }

  lemma {:induction false} StrCmpAntisymmetric(a: string, b: string)
    ensures StrCmp(b, a) == -StrCmp(a, b)
  {
    if a != [] && b != [] && a[0] == b[0] {
      StrCmpAntisymmetric(a[1..], b[1..]);
    }
  }

  lemma {:induction false} StrCmpTransitive(a: string, b: string, c: string)
    requires StrCmp(a, b) <= 0 && StrCmp(b, c) <= 0
    ensures StrCmp(a, c) <= 0
    ensures StrCmp(a, b) < 0 || StrCmp(b, c) < 0 ==> StrCmp(a, c) < 0
  {
    if a != [] && b != [] && c != [] && a[0] == b[0] && b[0] == c[0] {
      StrCmpTransitive(a[1..], b[1..], c[1..]);
    }
  }

  /** An absent first string compares as smaller than every string, absent or not, and a present one as
      greater than an absent one; absent strings equal nothing, present ones what has the same characters. */
  lemma AbsentStrings(a: Option<string>, b: Option<string>)
    ensures a.None? ==> RoundStrCmp(a, b) < 0
    ensures a.Some? && b.None? ==> RoundStrCmp(a, b) > 0
    ensures RoundStrEq(a, b) <==> a.Some? && a == b
  {
    if a.Some? && b.Some? {
      StrCmpIsLexOrder(a.value, b.value);
    }
  }
}
