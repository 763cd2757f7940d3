/** Sequences without duplicates, and the ways list operations rearrange them. */
module Sequences {

  datatype Option<+T> = None | Some(value: T) {
    function GetOr(default: T): T {
      if None? then default else value
    }
  }

  ghost predicate NoDup<T>(s: seq<T>) {
    forall i, j :: 0 <= i < j < |s| ==> s[i] != s[j]
  }

  /** Where x stands in s. */
  ghost function IndexOf<T>(s: seq<T>, x: T): (k: nat)
    requires x in s
    ensures k < |s| && s[k] == x
  {
    var k: nat :| k < |s| && s[k] == x;
    k
  }

  /** s with x taken out. */
  ghost function Without<T>(s: seq<T>, x: T): seq<T> {
    if x in s then s[..IndexOf(s, x)] + s[IndexOf(s, x) + 1..] else s
  }

  /** s with x put right behind p; s itself when p is not there. */
  ghost function After<T>(s: seq<T>, p: T, x: T): seq<T> {
    if p in s then s[..IndexOf(s, p) + 1] + [x] + s[IndexOf(s, p) + 1..] else s
  }

  /** a stands somewhere before b in s. */
  ghost predicate Before<T>(s: seq<T>, a: T, b: T) {
    exists i, j :: 0 <= i < j < |s| && s[i] == a && s[j] == b
  }

  lemma AfterAt<T>(s: seq<T>, p: T, x: T, k: nat)
    requires NoDup(s) && k < |s| && s[k] == p
    ensures After(s, p, x) == s[..k + 1] + [x] + s[k + 1..]
  {
  }

  lemma WithoutMember<T>(s: seq<T>, x: T, y: T)
    requires NoDup(s)
    ensures y in Without(s, x) <==> y in s && y != x
  {
  }

  lemma AfterMember<T>(s: seq<T>, p: T, x: T, y: T)
    ensures y in After(s, p, x) <==> y in s || (y == x && p in s)
  {
  }

  lemma WithoutNoDup<T>(s: seq<T>, x: T)
    requires NoDup(s)
    ensures NoDup(Without(s, x))
  {
  }

  lemma AfterNoDup<T>(s: seq<T>, p: T, x: T)
    requires NoDup(s) && x !in s
    ensures NoDup(After(s, p, x))
  {
  }

  /** Taking x out keeps the order of the others. */
  lemma WithoutOrder<T>(s: seq<T>, x: T)
    requires NoDup(s)
    ensures forall a, b :: a != x && b != x ==> (Before(Without(s, x), a, b) <==> Before(s, a, b))
  {
    if x in s {
      var k := IndexOf(s, x);
      var t := Without(s, x);
      PutOrder(t, k, x);
      assert t[..k] + [x] + t[k..] == s;
    }
  }

  /** Putting x behind p keeps the order of the others. */
  lemma AfterOrder<T>(s: seq<T>, p: T, x: T)
    ensures forall a, b :: a != x && b != x ==> (Before(After(s, p, x), a, b) <==> Before(s, a, b))
  {
    if p in s {
      var k := IndexOf(s, p) + 1;
      PutOrder(s, k, x);
    }
  }

  lemma ConsOrder<T>(s: seq<T>, x: T)
    ensures forall a, b :: a != x && b != x ==> (Before([x] + s, a, b) <==> Before(s, a, b))
  {
    assert s[..0] + [x] + s[0..] == [x] + s;
    PutOrder(s, 0, x);
  }

  lemma PutOrder<T>(s: seq<T>, k: nat, x: T)
    requires k <= |s|
    ensures var t := s[..k] + [x] + s[k..];
            forall a, b :: a != x && b != x ==> (Before(t, a, b) <==> Before(s, a, b))
  {
    var t := s[..k] + [x] + s[k..];
    forall a, b | a != x && b != x
      ensures Before(t, a, b) <==> Before(s, a, b)
    {
      if Before(t, a, b) {
        var i, j :| 0 <= i < j < |t| && t[i] == a && t[j] == b;
        assert s[if i < k then i else i - 1] == a && s[if j < k then j else j - 1] == b;
      }
      if Before(s, a, b) {
        var i, j :| 0 <= i < j < |s| && s[i] == a && s[j] == b;
        assert t[if i < k then i else i + 1] == a && t[if j < k then j else j + 1] == b;
      }
    }
  }

  lemma AfterPosition<T>(s: seq<T>, p: T, x: T)
    requires NoDup(s) && x !in s && p in s
    ensures x in After(s, p, x) && IndexOf(After(s, p, x), x) > 0
    ensures After(s, p, x)[IndexOf(After(s, p, x), x) - 1] == p
  {
  }
}
