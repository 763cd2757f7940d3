/** round_strreplace of string_func.c: a copy of a string with a token replaced,
    built in a buffer that is reallocated at every replacement. */
module StrReplace {
  import opened Sequences
  import opened CStrings

  /** size_t arithmetic wraps here. */
  const SIZE_MODULUS := 0x1_0000_0000_0000_0000

  /** No C object is larger than this. */
  const OBJECT_MAX := 0x7FFF_FFFF_FFFF_FFFF

  const NUL := '\0'

  // ---- What is computed ---------------------------------------------------------

  predicate Occurs(s: string, t: string, i: nat) {
    i + |t| <= |s| && s[i..i + |t|] == t
  }

  /** strstr as an offset: the first occurrence of t in s, -1 if there is none. */
  function StrStr(s: string, t: string): (i: int)
    ensures -1 <= i <= |s| && (i >= 0 ==> i + |t| <= |s|)
    ensures i >= 0 ==> Occurs(s, t, i) && forall j: nat :: j < i ==> !Occurs(s, t, j)
    ensures i < 0 ==> forall j: nat :: !Occurs(s, t, j)
  {
    StrStrFrom(s, t, 0)
  }

  function StrStrFrom(s: string, t: string, from: nat): (i: int)
    requires from <= |s|
    ensures -1 <= i <= |s|
    ensures i >= 0 ==> from <= i && Occurs(s, t, i) && forall j: nat :: from <= j < i ==> !Occurs(s, t, j)
    ensures i < 0 ==> forall j: nat :: from <= j ==> !Occurs(s, t, j)
    decreases |s| - from
  {
    if Occurs(s, t, from) then from
    else if from == |s| then -1
    else StrStrFrom(s, t, from + 1)
  }

  /** s with every occurrence of t replaced by r, leftmost first and without overlaps. */
  ghost function ReplaceAll(s: string, t: string, r: string): string
    requires t != []
    decreases |s|
  {
    var i := StrStr(s, t);
    if i < 0 then s else s[..i] + r + ReplaceAll(s[i + |t|..], t, r)
  }

  /** s cut at the replaced occurrences of t. */
  ghost function Pieces(s: string, t: string): seq<string>
    requires t != []
    decreases |s|
  {
    var i := StrStr(s, t);
    if i < 0 then [s] else [s[..i]] + Pieces(s[i + |t|..], t)
  }

  ghost function Join(pieces: seq<string>, glue: string): string {
    if pieces == [] then []
    else if |pieces| == 1 then pieces[0]
    else pieces[0] + glue + Join(pieces[1..], glue)
  }

  /** Replacing cuts s at occurrences of t and glues the pieces with r. */
  lemma {:induction false} ReplaceAllIsSplitAndJoin(s: string, t: string, r: string)
    requires t != []
    ensures Join(Pieces(s, t), t) == s
    ensures Join(Pieces(s, t), r) == ReplaceAll(s, t, r)
    decreases |s|
  {
    hide StrStr, Occurs;
    var i := StrStr(s, t);
    if i >= 0 {
      var rest := s[i + |t|..];
      ReplaceAllIsSplitAndJoin(rest, t, r);
      FoundAt(s, t);
      assert Pieces(s, t)[1..] == Pieces(rest, t) && Pieces(rest, t) != [];
    }
  }

  lemma FoundAt(s: string, t: string)
    requires StrStr(s, t) >= 0
    ensures var i := StrStr(s, t);
            s == s[..i] + t + s[i + |t|..]
  {
  }

  /** Each cut is at the first occurrence behind the previous cut, and the last piece has none. */
  lemma {:induction false} PiecesAreLeftmost(s: string, t: string)
    requires t != []
    ensures |Pieces(s, t)| == Count(s, t) + 1
    ensures forall j :: 0 <= j < Count(s, t) ==> StrStr(Pieces(s, t)[j] + t, t) == |Pieces(s, t)[j]|
    ensures StrStr(Pieces(s, t)[Count(s, t)], t) < 0
    decreases |s|
  {
    hide StrStr, Occurs;
    var i := StrStr(s, t);
    if i >= 0 {
      var rest := s[i + |t|..];
      PiecesAreLeftmost(rest, t);
      FirstStaysFirst(s, t, i);
    }
  }

  lemma FirstStaysFirst(s: string, t: string, i: nat)
    requires t != [] && StrStr(s, t) == i
    ensures StrStr(s[..i] + t, t) == i
  {
    var u := s[..i] + t;
    assert u == s[..i + |t|];
    assert Occurs(u, t, i);
    forall j: nat | j < i
      ensures !Occurs(u, t, j)
    {
      assert !Occurs(s, t, j);
      if j + |t| <= |u| {
        assert u[j..j + |t|] == s[j..j + |t|];
      }
    }
  }

  /** How many occurrences are replaced. */
  ghost function Count(s: string, t: string): nat
    requires t != []
    decreases |s|
  {
    var i := StrStr(s, t);
    if i < 0 then 0 else 1 + Count(s[i + |t|..], t)
  }

  /** Some replaced occurrence starts exactly where the previous one ended. */
  ghost predicate Touching(s: string, t: string)
    requires t != []
    decreases |s|
  {
    var i := StrStr(s, t);
    i >= 0 && (StrStr(s[i + |t|..], t) == 0 || Touching(s[i + |t|..], t))
  }

  /** The input "aa" with token "a" is one where occurrences touch. */
  lemma TouchingExample()
    ensures StrStr("aa", "a") == 0 && Touching("aa", "a")
  {
  }

  lemma OneMore(c: int, d: int)
    ensures (1 + c) * d == d + c * d
  {
  }

  /** The length of the result follows from the number of replacements. */
  lemma {:induction false} ReplaceAllLength(s: string, t: string, r: string)
    requires t != []
    ensures |ReplaceAll(s, t, r)| == |s| + Count(s, t) * (|r| - |t|)
    decreases |s|
  {
    hide StrStr, Occurs;
    var i := StrStr(s, t);
    if i >= 0 {
      ReplaceAllLength(s[i + |t|..], t, r);
      OneMore(Count(s[i + |t|..], t), |r| - |t|);
    }
  }

  /** Replacing by a longer token does not shrink a string. */
  lemma {:induction false} ReplaceAllGrows(s: string, t: string, r: string)
    requires t != [] && |r| >= |t|
    ensures |ReplaceAll(s, t, r)| >= |s|
    ensures StrStr(s, t) >= 0 ==> |ReplaceAll(s, t, r)| >= |s| + |r| - |t|
    decreases |s|
  {
    if StrStr(s, t) >= 0 {
      ReplaceAllGrows(s[StrStr(s, t) + |t|..], t, r);
    }
  }

  // ---- The buffer -------------------------------------------------------------------

  /** realloc: the first bytes survive, up to the smaller of the two sizes. */
  method Realloc(buf: array<char>, size: nat) returns (buf': array<char>)
    ensures fresh(buf') && buf'.Length == size
    ensures forall i :: 0 <= i < size && i < buf.Length ==> buf'[i] == buf[i]
  {
    buf' := new char[size](_ => NUL);
    var n := if size < buf.Length then size else buf.Length;
    for i := 0 to n
      invariant forall j :: 0 <= j < i ==> buf'[j] == buf[j]
      invariant forall j :: 0 <= j < buf.Length ==> buf[j] == old(buf[j])
    {
      buf'[i] := buf[i];
    }
  }

  /** memcpy of n bytes from src + from to buf + to; false when it would leave either object. */
  method MemCpy(buf: array<char>, to: nat, src: string, from: nat, n: nat) returns (inside: bool)
    modifies buf
    ensures inside == (to + n <= buf.Length && from + n <= |src|)
    ensures inside ==> buf[..to + n] == old(buf[..to]) + src[from..from + n]
    ensures !inside ==> buf[..] == old(buf[..])
  {
    inside := to + n <= buf.Length && from + n <= |src|;
    if inside {
      for i := 0 to n
        invariant forall j :: to <= j < to + i ==> buf[j] == src[from + j - to]
        invariant forall j :: 0 <= j < buf.Length && !(to <= j < to + i) ==> buf[j] == old(buf[j])
      {
        buf[to + i] := src[from + i];
      }
    }
  }

  /** The next occurrence as the loop sees it: an offset of 0 is not moved to where the search started. */
  function Rebased(i: int, start: nat): int {
    if 0 < i then i + start else i
  }

  lemma NothingToReplace(s: string, t: string, r: string)
    requires t != [] && StrStr(s, t) < 0
    ensures ReplaceAll(s, t, r) == s && !Touching(s, t)
  {
  }

  /** One round of replacement, on the part of s from p on. */
  lemma ReplaceStep(s: string, t: string, r: string, p: nat)
    requires t != [] && p <= |s| && StrStr(s[p..], t) >= 0
    ensures var i := p + StrStr(s[p..], t);
            && i + |t| <= |s|
            && ReplaceAll(s[p..], t, r) == s[p..i] + r + ReplaceAll(s[i + |t|..], t, r)
            && (Touching(s[p..], t) <==> StrStr(s[i + |t|..], t) == 0 || Touching(s[i + |t|..], t))
            && (|r| >= |t| ==> |ReplaceAll(s[i + |t|..], t, r)| >= |s| - i - |t|)
  {
    hide *;
    var u, i := s[p..], StrStr(s[p..], t);
    OneReplacement(u, t, r);
    assert u[..i] == s[p..p + i] && u[i + |t|..] == s[p + i + |t|..];
    if |r| >= |t| {
      ReplaceAllGrows(u[i + |t|..], t, r);
    }
  }

  lemma OneReplacement(u: string, t: string, r: string)
    requires t != [] && StrStr(u, t) >= 0
    ensures var i := StrStr(u, t);
            && i + |t| <= |u|
            && ReplaceAll(u, t, r) == u[..i] + r + ReplaceAll(u[i + |t|..], t, r)
            && (Touching(u, t) <==> StrStr(u[i + |t|..], t) == 0 || Touching(u[i + |t|..], t))
  {
  }

  /** size_t addition and subtraction */
  function SizeAdd(a: nat, b: nat): nat {
    (a + b) % SIZE_MODULUS
  }

  function SizeSub(a: nat, b: nat): nat {
    (a - b) % SIZE_MODULUS
  }

  /** A difference of sizes wraps when it would be negative. */
  lemma SizeSubWraps(a: nat, b: nat)
    requires a < OBJECT_MAX && b < OBJECT_MAX
    ensures SizeSub(a, b) == if a >= b then a - b else SIZE_MODULUS + a - b
  {
  }

  /** Adding a wrapped length difference still gives the right length. */
  lemma SizeAddUnwraps(n: nat, a: nat, b: nat)
    requires a < OBJECT_MAX && b < OBJECT_MAX && 0 <= n + a - b < OBJECT_MAX
    ensures SizeAdd(n, SizeSub(a, b)) == n + a - b
  {
  }

  /** The reallocation in the loop of round_strreplace: the buffer changes by the token length difference. */
  method Resize(buf: array<char>, bufLen: nat, repTokenLen: nat, orgTokenLen: nat)
    returns (buf': array<char>, bufLen': nat)
    requires repTokenLen < OBJECT_MAX && orgTokenLen < OBJECT_MAX
             && 0 <= bufLen + repTokenLen - orgTokenLen < OBJECT_MAX
    requires buf.Length == bufLen + 1
    ensures bufLen' == bufLen + repTokenLen - orgTokenLen && buf'.Length == bufLen' + 1
    ensures buf' == buf || fresh(buf')
    ensures forall i :: 0 <= i < buf'.Length && i < buf.Length ==> buf'[i] == buf[i]
  {
    SizeSubWraps(repTokenLen, orgTokenLen);
    SizeAddUnwraps(bufLen, repTokenLen, orgTokenLen);
    hide SizeAdd, SizeSub;
    buf', bufLen' := buf, bufLen;
    var tokenDiffLen := SizeSub(repTokenLen, orgTokenLen);
    if tokenDiffLen != 0 {
      bufLen' := SizeAdd(bufLen, tokenDiffLen);
      buf' := Realloc(buf, bufLen' + 1);
    }
  }

  /** The two copies in the loop: the text up to the occurrence, then the replacement. Fails
      when the occurrence lies before what is already copied. */
  method CopyPieces(buf: array<char>, copied: nat, s: string, from: nat, to: nat, r: string)
    returns (inside: bool, copied': nat)
    requires |s| < OBJECT_MAX && from <= |s| && to <= |s| && copied <= buf.Length
    requires from <= to ==> copied + (to - from) + |r| < buf.Length
    modifies buf
    ensures inside <==> from <= to
    ensures inside ==> copied' == copied + (to - from) + |r|
    ensures inside ==> buf[..copied'] == old(buf[..copied]) + s[from..to] + r
  {
    SizeSubWraps(to, from);
    hide SizeSub;
    ghost var done := buf[..copied];
    copied' := copied;
    var copyLen := SizeSub(to, from);
    if 0 < copyLen {
      inside := MemCpy(buf, copied, s + [NUL], from, copyLen);
      if !inside {
        return;
      }
      assert (s + [NUL])[from..from + copyLen] == s[from..to];
    }
    copied' := copied + copyLen;
    assert buf[..copied'] == done + s[from..to];
    buf[copied'] := NUL;
    assert buf[..copied'] == done + s[from..to];
    inside := MemCpy(buf, copied', r, 0, |r|);
    copied' := copied' + |r|;
    assert r[0..0 + |r|] == r;
    buf[copied'] := NUL;
  }

  /** The copy behind the loop: the text after the last occurrence, and the terminator. */
  method CopyRest(buf: array<char>, copied: nat, s: string, from: nat) returns (res: string)
    requires from <= |s| && copied + (|s| - from) < buf.Length
    modifies buf
    ensures res == old(buf[..copied]) + s[from..]
  {
    var leftStrLen := |s| - from;
    var _ := MemCpy(buf, copied, s + [NUL], from, leftStrLen);
    assert (s + [NUL])[from..from + leftStrLen] == s[from..];
    buf[copied + leftStrLen] := NUL;
    res := buf[..copied + leftStrLen];
  }

  /** One round of the loop: the buffer is resized for the replacement, then written. */
  method ReplaceOne(buf: array<char>, bufLen: nat, copied: nat, s: string, from: nat, to: nat, r: string, tokenLen: nat)
    returns (inside: bool, buf': array<char>, bufLen': nat, copied': nat)
    requires |s| < OBJECT_MAX && from <= |s| && to <= |s| && |r| < OBJECT_MAX && tokenLen < OBJECT_MAX
    requires buf.Length == bufLen + 1 && bufLen < OBJECT_MAX && 0 <= bufLen + |r| - tokenLen < OBJECT_MAX
    requires copied <= bufLen + |r| - tokenLen && copied <= bufLen
    requires from <= to ==> copied + (to - from) + |r| <= bufLen + |r| - tokenLen
    modifies buf
    ensures bufLen' == bufLen + |r| - tokenLen && buf'.Length == bufLen' + 1 && (buf' == buf || fresh(buf'))
    ensures inside <==> from <= to
    ensures inside ==> copied' == copied + (to - from) + |r| && buf'[..copied'] == old(buf[..copied]) + s[from..to] + r
  {
    ghost var done := buf[..copied];
    buf', bufLen' := Resize(buf, bufLen, |r|, tokenLen);
    assert buf'[..copied] == done;
    inside, copied' := CopyPieces(buf', copied, s, from, to, r);
  }

  /** The replacement loop of round_strreplace, for a non-empty string and token. None
      stands for a copy that leaves its buffers, which happens exactly when two
      replaced occurrences touch. */
  method ReplaceTokens(s: string, t: string, r: string) returns (res: Option<string>)
    requires 0 < |s| < OBJECT_MAX && 0 < |t| < OBJECT_MAX && |r| < OBJECT_MAX
    requires |ReplaceAll(s, t, r)| < OBJECT_MAX
    ensures res == if Touching(s, t) then None else Some(ReplaceAll(s, t, r))
  {
    hide StrStr, Occurs, ReplaceAll, Touching;
    var strLen := |s|;
    var repStr := new char[strLen + 1](_ => NUL);
    var lastCopiedIdx, copiedLen, repStrLen := 0, 0, strLen;
    var orgTokenIdx := StrStr(s, t);
    assert s[0..] == s;
    while 0 <= orgTokenIdx
      invariant fresh(repStr) && 0 <= lastCopiedIdx <= strLen && 0 <= copiedLen && 0 <= repStrLen < OBJECT_MAX
      invariant repStr.Length == repStrLen + 1 && copiedLen - lastCopiedIdx == repStrLen - strLen
      invariant ReplaceAll(s, t, r) == repStr[..copiedLen] + ReplaceAll(s[lastCopiedIdx..], t, r)
      invariant Touching(s, t) <==>
                (lastCopiedIdx > 0 && StrStr(s[lastCopiedIdx..], t) == 0) || Touching(s[lastCopiedIdx..], t)
      invariant orgTokenIdx == Rebased(StrStr(s[lastCopiedIdx..], t), lastCopiedIdx)
      decreases strLen - lastCopiedIdx
    {
      ReplaceStep(s, t, r, lastCopiedIdx);
      var inside;
      inside, repStr, repStrLen, copiedLen := ReplaceOne(repStr, repStrLen, copiedLen, s, lastCopiedIdx,
                                                         orgTokenIdx, r, |t|);
      if !inside {
        return None;
      }
      lastCopiedIdx := orgTokenIdx + |t|;
      orgTokenIdx := StrStr(s[lastCopiedIdx..], t);
      if 0 < orgTokenIdx {
        orgTokenIdx := orgTokenIdx + lastCopiedIdx;
      }
    }
    NothingToReplace(s[lastCopiedIdx..], t, r);
    var replaced := CopyRest(repStr, copiedLen, s, lastCopiedIdx);
    return Some(replaced);
  }

  /** round_strreplace */
  method Replace(str: Option<string>, orgToken: Option<string>, repToken: Option<string>) returns (res: Option<string>)
    requires RoundStrLen(str) < OBJECT_MAX && RoundStrLen(orgToken) < OBJECT_MAX && RoundStrLen(repToken) < OBJECT_MAX
    requires str.Some? && orgToken.Some? && orgToken.value != [] ==>
               |ReplaceAll(str.value, orgToken.value, repToken.GetOr([]))| < OBJECT_MAX
    ensures str.None? ==> res == Some([])
    ensures str.Some? && RoundStrLen(orgToken) == 0 ==> res == str
    ensures str.Some? && RoundStrLen(orgToken) > 0 ==>
              res == if Touching(str.value, orgToken.value) then None
                     else Some(ReplaceAll(str.value, orgToken.value, repToken.GetOr([])))
  {
    var strLen := RoundStrLen(str);
    if strLen <= 0 {
      return Some([]);
    }
    var orgTokenLen := RoundStrLen(orgToken);
    if orgTokenLen <= 0 {
      var repStr := new char[strLen + 1](_ => NUL);
      var src := str.value + [NUL];
      var _ := MemCpy(repStr, 0, src, 0, strLen + 1);
      assert repStr[..strLen] == repStr[..strLen + 1][..strLen] == src[..strLen] == str.value;
      return Some(repStr[..strLen]);
    }
    res := ReplaceTokens(str.value, orgToken.value, repToken.GetOr([]));
  }
}
