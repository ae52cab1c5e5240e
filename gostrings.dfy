/**
 * The parts of Go's `strings` package that the property readers use:
 * `HasPrefix`, `Split` (with a one-character separator) and `TrimSpace`
 * restricted to ASCII white space.
 */
module GoStrings {

  /** ASCII white space as `strings.TrimSpace` sees it: '\t', '\n', '\v', '\f', '\r' and ' '. */
  predicate IsSpace(c: char)
  {
    c == ' ' || 9 <= c as int <= 13
  }

  predicate AllSpace(s: string)
  {
    forall i | 0 <= i < |s| :: IsSpace(s[i])
  }

  /** A string with no white space at either end. */
  predicate IsTrimmed(s: string)
  {
    s == [] || (!IsSpace(s[0]) && !IsSpace(s[|s| - 1]))
  }

  /** `strings.HasPrefix(s, prefix)`. */
  predicate HasPrefix(s: string, prefix: string)
  {
    |prefix| <= |s| && forall i | 0 <= i < |prefix| :: s[i] == prefix[i]
  }

  // ---------------------------------------------------------------- Split

  /**
   * `strings.Split(s, string(sep))`: the pieces of `s` between occurrences
   * of `sep`. There is always at least one piece (`Split("", sep) == [""]`),
   * and a second piece exactly when `sep` occurs in `s`.
   */
  function Split(s: string, sep: char): (parts: seq<string>)
    ensures |parts| >= 1
    ensures |parts| > 1 <==> sep in s
    ensures forall i | 0 <= i < |parts| :: sep !in parts[i]
  {
    if s == [] then [[]]
    else
      var rest := Split(s[1..], sep);
      assert sep in s <==> s[0] == sep || sep in s[1..] by {
        assert s == [s[0]] + s[1..];
      }
      if s[0] == sep then [[]] + rest
      else [[s[0]] + rest[0]] + rest[1..]
  }

  /** `strings.Join(parts, string(sep))`, the inverse of `Split`. */
  function Join(parts: seq<string>, sep: char): string
    requires |parts| >= 1
  {
    if |parts| == 1 then parts[0] else parts[0] + [sep] + Join(parts[1..], sep)
  }

  /** Joining the pieces back with the separator gives the original string. */
  lemma {:induction false} SplitThenJoin(s: string, sep: char)
    ensures Join(Split(s, sep), sep) == s
  {
    if s != [] {
      SplitThenJoin(s[1..], sep);
      var rest := Split(s[1..], sep);
      if s[0] != sep {
        var parts := Split(s, sep);
        assert parts[1..] == rest[1..];
        if |rest| == 1 {
          assert Join(parts, sep) == [s[0]] + rest[0];
        } else {
          assert Join(rest, sep) == rest[0] + [sep] + Join(rest[1..], sep);
          assert Join(parts, sep) == [s[0]] + rest[0] + [sep] + Join(rest[1..], sep);
        }
      }
    }
  }

  /** Splitting a piece that holds no separator gives that piece alone. */
  lemma {:induction false} SplitNoSeparator(s: string, sep: char)
    requires sep !in s
    ensures Split(s, sep) == [s]
  {
    if s != [] {
      assert sep !in s[1..];
      SplitNoSeparator(s[1..], sep);
      assert [s[0]] + s[1..] == s;
    }
  }

  /** A separator-free head followed by the separator splits off as the first piece. */
  lemma {:induction false} SplitAfterHead(head: string, tail: string, sep: char)
    requires sep !in head
    ensures Split(head + [sep] + tail, sep) == [head] + Split(tail, sep)
  {
    if head != [] {
      assert (head + [sep] + tail)[1..] == head[1..] + [sep] + tail;
      assert sep !in head[1..];
      SplitAfterHead(head[1..], tail, sep);
      assert [head[0]] + head[1..] == head;
    } else {
      assert head + [sep] + tail == [sep] + tail;
      assert ([sep] + tail)[1..] == tail;
    }
  }

  /** Splitting a join of separator-free pieces gives the pieces back. */
  lemma {:induction false} JoinThenSplit(parts: seq<string>, sep: char)
    requires |parts| >= 1
    requires forall i | 0 <= i < |parts| :: sep !in parts[i]
    ensures Split(Join(parts, sep), sep) == parts
  {
    if |parts| == 1 {
      SplitNoSeparator(parts[0], sep);
    } else {
      JoinThenSplit(parts[1..], sep);
      SplitAfterHead(parts[0], Join(parts[1..], sep), sep);
      assert [parts[0]] + parts[1..] == parts;
    }
  }

  /**
   * What `Split(s, sep)[0]` and `Split(s, sep)[1]` are when `sep` occurs:
   * the text before the first separator, and the text between the first
   * separator and the next one (or the end of `s`).
   */
  lemma FirstTwoPieces(s: string, sep: char)
    requires sep in s
    ensures var p := Split(s, sep);
      var n := |p[0]| + 1 + |p[1]|;
      && n <= |s|
      && s[..n] == p[0] + [sep] + p[1]
      && (n == |s| || s[n] == sep)
  {
    var p := Split(s, sep);
    SplitThenJoin(s, sep);
    assert Join(p[1..], sep) == if |p| == 2 then p[1] else p[1] + [sep] + Join(p[2..], sep);
    assert s == p[0] + [sep] + Join(p[1..], sep);
    var n := |p[0]| + 1 + |p[1]|;
    assert s[..n] == p[0] + [sep] + p[1];
  }

  // ------------------------------------------------------------ TrimSpace

  /** `strings.TrimLeft(s, asciiSpace)`: drop the leading white space. */
  function TrimLeft(s: string): (r: string)
    ensures |r| <= |s|
    ensures r != [] ==> !IsSpace(r[0])
  {
    if s != [] && IsSpace(s[0]) then TrimLeft(s[1..]) else s
  }

  /** What TrimLeft drops is white space, and what it keeps is the rest of `s`. */
  lemma {:induction false} TrimLeftDropsSpace(s: string)
    ensures var r := TrimLeft(s);
      r == s[|s| - |r|..] && AllSpace(s[..|s| - |r|])
  {
    if s != [] && IsSpace(s[0]) {
      TrimLeftDropsSpace(s[1..]);
    }
  }

  /** `strings.TrimRight(s, asciiSpace)`: drop the trailing white space. */
  function TrimRight(s: string): (r: string)
    ensures |r| <= |s|
    ensures r != [] ==> r[0] == s[0] && !IsSpace(r[|r| - 1])
  {
    if s != [] && IsSpace(s[|s| - 1]) then TrimRight(s[..|s| - 1]) else s
  }

  /** What TrimRight drops is white space, and what it keeps is the start of `s`. */
  lemma {:induction false} TrimRightDropsSpace(s: string)
    ensures var r := TrimRight(s);
      r == s[..|r|] && AllSpace(s[|r|..])
  {
    if s != [] && IsSpace(s[|s| - 1]) {
      var s' := s[..|s| - 1];
      TrimRightDropsSpace(s');
      var r := TrimRight(s');
      assert s'[..|r|] == s[..|r|];
      assert s[|r|..] == s'[|r|..] + [s[|s| - 1]];
    }
  }

  /** `strings.TrimSpace(s)` over ASCII white space. */
  function TrimSpace(s: string): (r: string)
    ensures IsTrimmed(r)
    ensures |r| <= |s|
  {
    TrimRight(TrimLeft(s))
  }

  /** TrimSpace removes white space only: `s` is `r` with white space around it. */
  lemma TrimSpaceRemovesOnlySpace(s: string) returns (lead: nat)
    ensures var r := TrimSpace(s);
      && lead + |r| <= |s|
      && s[lead..lead + |r|] == r
      && AllSpace(s[..lead])
      && AllSpace(s[lead + |r|..])
  {
    var l := TrimLeft(s);
    var r := TrimRight(l);
    TrimLeftDropsSpace(s);
    TrimRightDropsSpace(l);
    lead := |s| - |l|;
    assert s[lead..] == l;
    assert s[lead..lead + |r|] == l[..|r|];
    assert s[lead + |r|..] == l[|r|..];
  }

  /** TrimSpace undoes any white-space padding of a trimmed string. */
  lemma {:induction false} TrimSpaceOfPadded(before: string, t: string, after: string)
    requires AllSpace(before) && AllSpace(after) && IsTrimmed(t)
    ensures TrimSpace(before + t + after) == t
  {
    var s := before + t + after;
    if t == [] {
      assert AllSpace(s) by {
        assert s == before + after;
      }
      TrimLeftOfSpace(s);
    } else {
      assert s == before + (t + after);
      TrimLeftOfPadded(before, t + after);
      TrimRightOfPadded(t, after);
    }
  }

  lemma {:induction false} TrimLeftOfSpace(s: string)
    requires AllSpace(s)
    ensures TrimLeft(s) == []
  {
    if s != [] {
      TrimLeftOfSpace(s[1..]);
    }
  }

  lemma {:induction false} TrimLeftOfPadded(before: string, s: string)
    requires AllSpace(before) && (s == [] || !IsSpace(s[0]))
    ensures TrimLeft(before + s) == s
  {
    if before != [] {
      assert (before + s)[1..] == before[1..] + s;
      TrimLeftOfPadded(before[1..], s);
    }
  }

  lemma {:induction false} TrimRightOfPadded(s: string, after: string)
    requires AllSpace(after) && (s == [] || !IsSpace(s[|s| - 1]))
    ensures TrimRight(s + after) == s
  {
    if after != [] {
      var n := |after| - 1;
      assert (s + after)[..|s + after| - 1] == s + after[..n];
      TrimRightOfPadded(s, after[..n]);
    } else {
      assert s + after == s;
    }
  }

  /** Trimming twice is trimming once. */
  lemma TrimSpaceIdempotent(s: string)
    ensures TrimSpace(TrimSpace(s)) == TrimSpace(s)
  {
    var t := TrimSpace(s);
    TrimSpaceOfPadded([], t, []);
    assert [] + t + [] == t;
  }
}
