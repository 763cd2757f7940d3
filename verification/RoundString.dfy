/** The growable string of string.c and its multi-pattern replacement. */
module RoundString {
  import opened Sequences

  const REALLOC_EXTRA := 16
  const NUL := '\0'

  // ---- What a replacement computes --------------------------------------------------

  /** A stretch of the original: a matched pattern, or one character that is copied. */
  datatype Segment = Match(n: nat) | Copy(c: char)

  ghost predicate NonEmptyPatterns(patterns: seq<string>) {
    forall n :: 0 <= n < |patterns| ==> patterns[n] != []
  }

  /** The segments cut s into matched patterns, and characters at which no pattern matches. */
  ghost predicate Segments(s: string, segs: seq<Segment>, patterns: seq<string>) {
    if segs == [] then s == []
    else match segs[0]
      case Match(n) => n < |patterns| && patterns[n] <= s && Segments(s[|patterns[n]|..], segs[1..], patterns)
      case Copy(c) => s != [] && s[0] == c && Segments(s[1..], segs[1..], patterns)
                      && forall n :: 0 <= n < |patterns| ==> !(patterns[n] <= s)
  }

  /** The segments written out, with every matched pattern replaced by its target. */
  ghost function Output(segs: seq<Segment>, targets: seq<Option<string>>): string
    requires forall i :: 0 <= i < |segs| && segs[i].Match? ==> segs[i].n < |targets|
  {
    if segs == [] then []
    else (match segs[0] case Match(n) => targets[n].GetOr([]) case Copy(c) => [c]) + Output(segs[1..], targets)
  }

  /** The cut that the loop makes. Within one pass, pattern n is tried where the previous
      match of that pass ended; a pass without match copies one character. */
  ghost function Cut(s: string, patterns: seq<string>, n: nat, isReplaced: bool): (segs: seq<Segment>)
    requires NonEmptyPatterns(patterns) && n <= |patterns|
    ensures forall i :: 0 <= i < |segs| && segs[i].Match? ==> segs[i].n < |patterns|
    decreases |s|, isReplaced, |patterns| - n
  {
    if n < |patterns| then
      if patterns[n] <= s then [Match(n)] + Cut(s[|patterns[n]|..], patterns, n + 1, true)
      else Cut(s, patterns, n + 1, isReplaced)
    else if s == [] then []
    else if isReplaced then Cut(s, patterns, 0, false)
    else [Copy(s[0])] + Cut(s[1..], patterns, 0, false)
  }

  /** The loop's cut is a proper segmentation. */
  lemma {:induction false} CutIsSegmentation(s: string, patterns: seq<string>, n: nat, isReplaced: bool)
    requires NonEmptyPatterns(patterns) && n <= |patterns|
    requires !isReplaced ==> forall m :: 0 <= m < n ==> !(patterns[m] <= s)
    ensures Segments(s, Cut(s, patterns, n, isReplaced), patterns)
    decreases |s|, isReplaced, |patterns| - n
  {
    if n < |patterns| {
      if patterns[n] <= s {
        CutIsSegmentation(s[|patterns[n]|..], patterns, n + 1, true);
      } else {
        CutIsSegmentation(s, patterns, n + 1, isReplaced);
      }
    } else if s != [] {
      if isReplaced {
        CutIsSegmentation(s, patterns, 0, false);
      } else {
        CutIsSegmentation(s[1..], patterns, 0, false);
      }
    }
  }

  lemma PatternNotEmpty(patterns: seq<string>, n: nat)
    requires NonEmptyPatterns(patterns) && n < |patterns|
    ensures patterns[n] != []
  {
  }

  lemma ConcatAssociates(a: string, b: string, c: string)
    ensures (a + b) + c == a + (b + c)
  {
  }

  /** An input: in "aab" the patterns "a" and "ab" match one after the other in a single pass, so that the
      second "a" belongs to "ab". */
  lemma PassTriesNextPattern()
    ensures Cut("aab", ["a", "ab"], 0, false) == [Match(0), Match(1)]
  {
    var patterns := ["a", "ab"];
    assert "aab"[1..] == "ab" && "ab"[2..] == "" && NonEmptyPatterns(patterns);
    assert "a" <= "aab" && "ab" <= "ab" && !("a" <= "");
    assert Cut("", patterns, 2, true) == [];
    assert Cut("ab", patterns, 1, true) == [Match(1)] + Cut("", patterns, 2, true);
  }

  // ---- The string ----------------------------------------------------------------------

  class RoundString {
    var value: array?<char>
    var memSize: nat
    var valueSize: nat

    /** An absent value has no size; a present one is terminated inside its memory. */
    ghost predicate Valid()
      reads this, value
    {
      if value == null then memSize == 0 && valueSize == 0
      else memSize == value.Length && valueSize < memSize && value[valueSize] == NUL
    }

    /** round_string_getvalue, as a string */
    ghost function Contents(): Option<string>
      requires Valid()
      reads this, value
    {
      if value == null then None else Some(value[..valueSize])
    }

    /** round_string_new */
    constructor ()
      ensures Valid() && Contents() == None && value == null
    {
      value, memSize, valueSize := null, 0, 0;
    }

    /** round_string_clear */
    method Clear()
      modifies this
      ensures Valid() && Contents() == None && value == null
    {
      value, memSize, valueSize := null, 0, 0;
    }

    /** round_string_setvalue: an absent value is refused and changes nothing. */
    method SetValue(newValue: Option<string>) returns (isSet: bool)
      requires Valid()
      modifies this
      ensures Valid() && isSet == newValue.Some?
      ensures if isSet then Contents() == newValue && fresh(value)
              else Contents() == old(Contents()) && value == old(value)
    {
      if newValue.None? {
        return false;
      }
      Clear();
      valueSize := |newValue.value|;
      memSize := valueSize + 1;
      value := new char[memSize](i => if 0 <= i < |newValue.value| then newValue.value[i] else NUL);
      assert value[..valueSize] == newValue.value;
      return true;
    }

    /** realloc of the value to newMemSize bytes */
    method Reallocate(newMemSize: nat)
      requires Valid() && valueSize < newMemSize
      modifies this
      ensures value != null && fresh(value) && Valid() && valueSize == old(valueSize) && memSize == newMemSize
      ensures value[..valueSize] == old(Contents()).GetOr([])
    {
      var newValue := new char[newMemSize](_ => NUL);
      for i := 0 to valueSize
        invariant value != null ==> forall j :: 0 <= j < i ==> newValue[j] == value[j]
        invariant newValue[valueSize] == NUL && unchanged(this) && Valid()
        modifies newValue
      {
        newValue[i] := value[i];
      }
      memSize := newMemSize;
      value := newValue;
    }

    /** round_string_naddvalue: appends, growing the memory by a spare margin when needed.
        Adding nothing to an absent value leaves it absent. */
    method NAddValue(addition: Option<string>)
      requires Valid()
      modifies this, value
      ensures Valid() && (value == old(value) || fresh(value))
      ensures Contents() == if addition.GetOr([]) == [] then old(Contents())
                            else Some(old(Contents()).GetOr([]) + addition.value)
    {
      if addition.None? || |addition.value| <= 0 {
        return;
      }
      ghost var before := Contents().GetOr([]);
      var newMemSize := valueSize + |addition.value| + 1;
      if newMemSize > memSize || value == null {
        Reallocate(newMemSize + REALLOC_EXTRA);
      }
      for i := 0 to |addition.value|
        invariant value != null && value.Length == memSize && valueSize + |addition.value| < memSize
        invariant value[..valueSize] == before
        invariant forall j :: valueSize <= j < valueSize + i ==> value[j] == addition.value[j - valueSize]
        modifies value
      {
        value[valueSize + i] := addition.value[i];
      }
      valueSize := valueSize + |addition.value|;
      value[valueSize] := NUL;
      assert value[..valueSize] == before + addition.value;
    }

    /** Pattern n, tried at pos: when it matches, its target is appended and the position moves behind it. */
    method TryPattern(repValue: RoundString, fromStr: seq<string>, toStr: seq<Option<string>>, n: nat, pos: nat,
                      wasReplaced: bool)
      returns (copyPos: nat, isReplaced: bool)
      requires Valid() && pos <= valueSize && NonEmptyPatterns(fromStr) && |fromStr| == |toStr| && n < |fromStr|
      requires repValue.Valid() && repValue != this && (value != null ==> repValue.value != value)
      requires repValue.Contents() != Some([])
      modifies repValue, repValue.value
      ensures repValue.Valid() && (repValue.value == old(repValue.value) || fresh(repValue.value))
      ensures repValue.Contents() != Some([])
      ensures pos <= copyPos <= valueSize && (isReplaced <==> wasReplaced || pos < copyPos)
      ensures var org := Contents().GetOr([]);
              repValue.Contents().GetOr([]) + Output(Cut(org[copyPos..], fromStr, n + 1, isReplaced), toStr)
              == old(repValue.Contents()).GetOr([]) + Output(Cut(org[pos..], fromStr, n, wasReplaced), toStr)
    {
      hide Cut, Output, NonEmptyPatterns;
      ghost var org, written := Contents().GetOr([]), repValue.Contents().GetOr([]);
      copyPos, isReplaced := pos, wasReplaced;
      PatternTried(org[pos..], fromStr, n, wasReplaced, toStr);
      PatternNotEmpty(fromStr, n);
      if StartsWith(pos, fromStr[n]) {
        copyPos := pos + |fromStr[n]|;
        isReplaced := true;
        ghost var rest := Output(Cut(org[copyPos..], fromStr, n + 1, true), toStr);
        assert org[pos..][|fromStr[n]|..] == org[copyPos..];
        ConcatAssociates(written, toStr[n].GetOr([]), rest);
        repValue.NAddValue(toStr[n]);
        assert Contents().GetOr([]) == org && repValue.Contents().GetOr([]) == written + toStr[n].GetOr([]);
      }
    }

    /** One pass of round_string_replace over the patterns, appending the targets of those that match to repValue. */
    method ReplacePass(repValue: RoundString, fromStr: seq<string>, toStr: seq<Option<string>>, start: nat)
      returns (copyPos: nat, isReplaced: bool)
      requires Valid() && start <= valueSize && NonEmptyPatterns(fromStr) && |fromStr| == |toStr|
      requires repValue.Valid() && repValue != this && (value != null ==> repValue.value != value)
      requires repValue.Contents() != Some([])
      modifies repValue, repValue.value
      ensures repValue.Valid() && (repValue.value == old(repValue.value) || fresh(repValue.value))
      ensures repValue.Contents() != Some([])
      ensures start <= copyPos <= valueSize && (isReplaced <==> start < copyPos)
      ensures var org := Contents().GetOr([]);
              repValue.Contents().GetOr([]) + Output(Cut(org[copyPos..], fromStr, |fromStr|, isReplaced), toStr)
              == old(repValue.Contents()).GetOr([]) + Output(Cut(org[start..], fromStr, 0, false), toStr)
    {
      hide Cut, Output, NonEmptyPatterns;
      ghost var org := Contents().GetOr([]);
      ghost var out := repValue.Contents().GetOr([]) + Output(Cut(org[start..], fromStr, 0, false), toStr);
      copyPos, isReplaced := start, false;
      for n := 0 to |fromStr|
        invariant repValue.Valid() && (repValue.value == old(repValue.value) || fresh(repValue.value))
        invariant repValue.Contents() != Some([])
        invariant start <= copyPos <= valueSize && (isReplaced <==> start < copyPos)
        invariant Contents().GetOr([]) == org
        invariant repValue.Contents().GetOr([]) + Output(Cut(org[copyPos..], fromStr, n, isReplaced), toStr) == out
      {
        copyPos, isReplaced := TryPattern(repValue, fromStr, toStr, n, copyPos, isReplaced);
      }
    }

    /** strncmp of the pattern's length: the string continues with the pattern at pos. */
    predicate StartsWith(pos: nat, pattern: string)
      requires Valid() && pos <= valueSize && pattern != []
      reads this, value
      ensures StartsWith(pos, pattern) <==> pattern <= Contents().GetOr([])[pos..]
    {
      value != null && pos + |pattern| <= valueSize && value[pos..pos + |pattern|] == pattern
    }

    /** The loop of round_string_replace: writes the segments out into a new string. */
    method WriteSegments(fromStr: seq<string>, toStr: seq<Option<string>>) returns (repValue: RoundString)
      requires Valid() && NonEmptyPatterns(fromStr) && |fromStr| == |toStr|
      ensures fresh(repValue) && repValue.Valid() && repValue.Contents() != Some([])
      ensures repValue.Contents().GetOr([]) == Output(Cut(Contents().GetOr([]), fromStr, 0, false), toStr)
    {
      hide Cut, Output, NonEmptyPatterns;
      ghost var org := Contents().GetOr([]);
      ghost var out := Output(Cut(org, fromStr, 0, false), toStr);
      repValue := new RoundString();
      var orgValueLen := valueSize;
      var copyPos := 0;
      assert org[0..] == org;
      while copyPos < orgValueLen
        invariant unchanged(this) && Valid() && Contents().GetOr([]) == org
        invariant fresh(repValue) && repValue.Valid() && (repValue.value == null || fresh(repValue.value))
        invariant copyPos <= orgValueLen && repValue.Contents() != Some([])
        invariant repValue.Contents().GetOr([]) + Output(Cut(org[copyPos..], fromStr, 0, false), toStr) == out
      {
        var isReplaced;
        copyPos, isReplaced := ReplacePass(repValue, fromStr, toStr, copyPos);
        PassEnds(org[copyPos..], fromStr, isReplaced, toStr);
        if isReplaced {
          continue;
        }
        ghost var written, rest :=
          repValue.Contents().GetOr([]), Output(Cut(org[copyPos + 1..], fromStr, 0, false), toStr);
        assert org[copyPos..][1..] == org[copyPos + 1..];
        ConcatAssociates(written, [value[copyPos]], rest);
        repValue.NAddValue(Some([value[copyPos]]));
        copyPos := copyPos + 1;
      }
      assert org[copyPos..] == [];
      PassEnds([], fromStr, false, toStr);
    }

    /** round_string_replace: cuts the string into segments and writes them out again; a string
        whose replacement would be empty is left as it is. */
    method Replace(fromStr: seq<string>, toStr: seq<Option<string>>)
      requires Valid() && NonEmptyPatterns(fromStr) && |fromStr| == |toStr|
      modifies this
      ensures Valid()
      ensures var before := old(Contents());
              var segs := Cut(before.GetOr([]), fromStr, 0, false);
              && Segments(before.GetOr([]), segs, fromStr)
              && Contents() == if Output(segs, toStr) == [] then before else Some(Output(segs, toStr))
    {
      hide Segments, Cut, Output, NonEmptyPatterns;
      CutIsSegmentation(Contents().GetOr([]), fromStr, 0, false);
      var repValue := WriteSegments(fromStr, toStr);
      var result := if repValue.value == null then None else Some(repValue.value[..repValue.valueSize]);
      assert result == repValue.Contents();
      var _ := SetValue(result);
    }
  }

  /** What trying the n-th pattern contributes. */
  lemma PatternTried(s: string, patterns: seq<string>, n: nat, isReplaced: bool, targets: seq<Option<string>>)
    requires NonEmptyPatterns(patterns) && |patterns| == |targets| && n < |patterns|
    ensures Output(Cut(s, patterns, n, isReplaced), targets)
            == if patterns[n] <= s then
                 targets[n].GetOr([]) + Output(Cut(s[|patterns[n]|..], patterns, n + 1, true), targets)
               else Output(Cut(s, patterns, n + 1, isReplaced), targets)
  {
  }

  /** How a pass hands over to the next one. */
  lemma PassEnds(s: string, patterns: seq<string>, isReplaced: bool, targets: seq<Option<string>>)
    requires NonEmptyPatterns(patterns) && |patterns| == |targets|
    ensures Output(Cut([], patterns, 0, false), targets) == []
    ensures var end := Output(Cut(s, patterns, |patterns|, isReplaced), targets);
            && (isReplaced ==> end == Output(Cut(s, patterns, 0, false), targets))
            && (!isReplaced && s != [] ==> end == [s[0]] + Output(Cut(s[1..], patterns, 0, false), targets))
  {
    NothingLeft(patterns, 0, false);
  }

  lemma NothingLeft(patterns: seq<string>, n: nat, isReplaced: bool)
    requires NonEmptyPatterns(patterns) && n <= |patterns|
    ensures Cut([], patterns, n, isReplaced) == []
    decreases isReplaced, |patterns| - n
  {
  }
}
