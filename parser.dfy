/**
 * The later revision of the reader (parser.go, package proprdr):
 * `parseFile` skips every line whose raw text starts with "#", splits the
 * others on '=' and stores the trimmed first piece as key and the trimmed
 * second piece as value.
 */
module Parser {
  import opened Results
  import opened GoStrings
  import opened LineSource

  const CommentLine: string := "#"
  const Separator: char := '='

  /** `strings.HasPrefix(line, commentLine)`, tested on the raw, untrimmed line. */
  predicate IsComment(line: string)
    ensures IsComment(line) <==> line != [] && line[0] == '#'
  {
    HasPrefix(line, CommentLine)
  }

  /** `strings.TrimSpace(keyValue[0])`. */
  function Key(line: string): (k: string)
    ensures IsTrimmed(k)
  {
    TrimSpace(Split(line, Separator)[0])
  }

  /** `strings.TrimSpace(keyValue[1])`. */
  function Value(line: string): (v: string)
    requires Separator in line
    ensures IsTrimmed(v)
  {
    TrimSpace(Split(line, Separator)[1])
  }

  /** A line the loop does not skip and that has no second piece: `keyValue[1]` is out of range. */
  predicate IsMalformed(line: string)
  {
    !IsComment(line) && Separator !in line
  }

  predicate WellFormed(lines: seq<string>)
  {
    forall i | 0 <= i < |lines| :: !IsMalformed(lines[i])
  }

  /** Line `i` is the first malformed line: the line the Go loop panics on. */
  predicate IsFirstMalformed(lines: seq<string>, i: nat)
  {
    i < |lines| && IsMalformed(lines[i]) && WellFormed(lines[..i])
  }

  /** No two non-comment lines share a trimmed key. */
  predicate DistinctKeys(lines: seq<string>)
  {
    forall i, j | 0 <= i < j < |lines| && !IsComment(lines[i]) && !IsComment(lines[j]) ::
      Key(lines[i]) != Key(lines[j])
  }

  function NonCommentCount(lines: seq<string>): nat
  {
    if lines == [] then 0
    else NonCommentCount(lines[..|lines| - 1]) + if IsComment(lines[|lines| - 1]) then 0 else 1
  }

  /** The map the loop builds, line by line: comments leave it alone, other lines store their entry. */
  function Table(lines: seq<string>): map<string, string>
    requires WellFormed(lines)
  {
    if lines == [] then map[]
    else
      var last := lines[|lines| - 1];
      var before := Table(lines[..|lines| - 1]);
      if IsComment(last) then before else before[Key(last) := Value(last)]
  }

  /**
   * `parseFile(fileName)`: an open error, the first malformed line (where
   * Go panics), a scanner error after a complete pass, or the table of all
   * lines.
   */
  method ParseFile(src: Source) returns (r: Result<map<string, string>, LoadError>)
    ensures src.Unopenable? ==> r == Failure(OpenError)
    ensures src.Scanned? && !WellFormed(src.lines) ==>
      r.Failure? && r.error.MalformedLine? && IsFirstMalformed(src.lines, r.error.index)
    ensures src.Scanned? && WellFormed(src.lines) ==>
      r == if src.scanFailed then Failure(ScanError) else Success(Table(src.lines))
  {
    if src.Unopenable? {
      return Failure(OpenError);
    }
    var results := map[];
    var lines := src.lines;
    for i := 0 to |lines|
      invariant WellFormed(lines[..i])
      invariant results == Table(lines[..i])
    {
      var line := lines[i];
      assert lines[..i + 1][..i] == lines[..i];
      if HasPrefix(line, CommentLine) {
        continue;
      }
      var keyValue := Split(line, Separator);
      if |keyValue| < 2 {
        // keyValue[1] is out of range: the Go program panics on this line
        return Failure(MalformedLine(i));
      }
      results := results[TrimSpace(keyValue[0]) := TrimSpace(keyValue[1])];
    }
    assert lines[..|lines|] == lines;
    if src.scanFailed {
      return Failure(ScanError);
    }
    return Success(results);
  }

  // ------------------------------------------------------------- lemmas

  /**
   * Where key and value come from: `eq` is the first '=' of the line, `end`
   * the next '=' or the end; the key is the trimmed text before `eq` and
   * the value the trimmed text between them.
   */
  lemma LineShape(line: string) returns (eq: nat, end: nat)
    requires Separator in line
    ensures eq < end <= |line|
    ensures line[eq] == Separator && Separator !in line[..eq]
    ensures Separator !in line[eq + 1..end] && (end == |line| || line[end] == Separator)
    ensures Key(line) == TrimSpace(line[..eq]) && Value(line) == TrimSpace(line[eq + 1..end])
  {
    var p := Split(line, Separator);
    FirstTwoPieces(line, Separator);
    eq := |p[0]|;
    end := eq + 1 + |p[1]|;
    assert line[..end][..eq] == line[..eq] == p[0];
    assert line[..end][eq + 1..] == line[eq + 1..end] == p[1];
  }

  /** A comment line, wherever it stands, changes nothing in the result. */
  lemma {:induction false} CommentIgnored(before: seq<string>, comment: string, after: seq<string>)
    requires IsComment(comment) && WellFormed(before + after)
    ensures WellFormed(before + [comment] + after)
    ensures Table(before + [comment] + after) == Table(before + after)
  {
    var with := before + [comment] + after;
    var without := before + after;
    assert WellFormed(with) by {
      forall i | 0 <= i < |with| ensures !IsMalformed(with[i]) {
        if i > |before| {
          assert with[i] == without[i - 1];
        } else if i < |before| {
          assert with[i] == without[i];
        }
      }
    }
    if after == [] {
      assert with[..|with| - 1] == before;
      assert without == before;
    } else {
      var n := |after| - 1;
      assert with[..|with| - 1] == before + [comment] + after[..n];
      assert without[..|without| - 1] == before + after[..n];
      assert with[|with| - 1] == without[|without| - 1];
      assert WellFormed(before + after[..n]) by {
        forall i | 0 <= i < |before + after[..n]| ensures !IsMalformed((before + after[..n])[i]) {
          assert (before + after[..n])[i] == without[i];
        }
      }
      CommentIgnored(before, comment, after[..n]);
    }
  }

  /** The keys of the result are exactly the trimmed keys of the non-comment lines. */
  lemma {:induction false} TableKeys(lines: seq<string>, k: string)
    requires WellFormed(lines)
    ensures k in Table(lines) <==> exists i | 0 <= i < |lines| :: !IsComment(lines[i]) && Key(lines[i]) == k
  {
    if lines != [] {
      var n := |lines| - 1;
      var init, last := lines[..n], lines[n];
      assert WellFormed(init);
      TableKeys(init, k);
      var here := !IsComment(last) && Key(last) == k;
      assert k in Table(lines) <==> k in Table(init) || here;
      if k in Table(init) {
        var i :| 0 <= i < |init| && !IsComment(init[i]) && Key(init[i]) == k;
        assert lines[i] == init[i];
      }
      if i :| 0 <= i < |lines| && !IsComment(lines[i]) && Key(lines[i]) == k {
        if i < n {
          assert lines[i] == init[i];
        }
      }
    }
  }

  /** Last write wins: an entry holds the value of the last non-comment line with that trimmed key. */
  lemma {:induction false} TableLastWins(lines: seq<string>, i: nat)
    requires WellFormed(lines) && i < |lines| && !IsComment(lines[i])
    requires forall j | i < j < |lines| && !IsComment(lines[j]) :: Key(lines[j]) != Key(lines[i])
    ensures Key(lines[i]) in Table(lines) && Table(lines)[Key(lines[i])] == Value(lines[i])
  {
    var n := |lines| - 1;
    if i < n {
      var init := lines[..n];
      assert init[i] == lines[i];
      TableLastWins(init, i);
    }
  }

  /** Every entry of the result is the trimmed key and value of some non-comment line. */
  lemma {:induction false} TableEntriesComeFromLines(lines: seq<string>, k: string)
    requires WellFormed(lines) && k in Table(lines)
    ensures exists i | 0 <= i < |lines| ::
      !IsComment(lines[i]) && Key(lines[i]) == k && Value(lines[i]) == Table(lines)[k]
  {
    var n := |lines| - 1;
    var init := lines[..n];
    if !IsComment(lines[n]) && Key(lines[n]) == k {
      assert Value(lines[n]) == Table(lines)[k];
    } else {
      TableEntriesComeFromLines(init, k);
      var i :| 0 <= i < |init| && !IsComment(init[i]) && Key(init[i]) == k && Value(init[i]) == Table(init)[k];
      assert lines[i] == init[i];
    }
  }

  /** No key and no value in the result has white space at either end. */
  lemma {:induction false} TableTrimmed(lines: seq<string>)
    requires WellFormed(lines)
    ensures forall k | k in Table(lines) :: IsTrimmed(k) && IsTrimmed(Table(lines)[k])
  {
    if lines != [] {
      TableTrimmed(lines[..|lines| - 1]);
    }
  }

  /** Appending a line keeps the keys distinct exactly when it is a comment or its key is new. */
  lemma DistinctKeysSnoc(init: seq<string>, line: string)
    ensures DistinctKeys(init + [line]) <==>
      && DistinctKeys(init)
      && (IsComment(line) || forall i | 0 <= i < |init| && !IsComment(init[i]) :: Key(init[i]) != Key(line))
  {
    var lines := init + [line];
    assert forall i | 0 <= i < |init| :: lines[i] == init[i];
    assert lines[|init|] == line;
  }

  /**
   * The result has at most one entry per non-comment line, and exactly one
   * per non-comment line when their trimmed keys are pairwise distinct.
   */
  lemma {:induction false} TableSize(lines: seq<string>)
    requires WellFormed(lines)
    ensures |Table(lines)| <= NonCommentCount(lines)
    ensures |Table(lines)| == NonCommentCount(lines) <==> DistinctKeys(lines)
  {
    if lines != [] {
      var n := |lines| - 1;
      var init, last := lines[..n], lines[n];
      assert lines == init + [last];
      var t := Table(init);
      TableSize(init);
      DistinctKeysSnoc(init, last);
      if !IsComment(last) {
        var key := Key(last);
        TableKeys(init, key);
        if key in t {
          assert Table(lines).Keys == t.Keys;
        } else {
          assert Table(lines).Keys == t.Keys + {key};
        }
      }
    }
  }

  /**
   * A line indented by white space is never a comment, even when its key
   * starts with "#": it goes through the split and the trim.
   */
  lemma IndentedLineIsEntry(indent: string, key: string, value: string)
    requires indent != [] && AllSpace(indent)
    requires IsTrimmed(key) && IsTrimmed(value) && Separator !in key && Separator !in value
    ensures var line := indent + key + [Separator] + value;
      !IsComment(line) && Table([line]) == map[key := value]
  {
    var line := indent + key + [Separator] + value;
    assert !IsComment(line) by {
      assert line[0] == indent[0];
    }
    assert Split(line, Separator) == [indent + key, value] by {
      var parts := [indent + key, value];
      assert Separator !in indent + key by {
        assert forall i | 0 <= i < |indent| :: IsSpace(indent[i]);
      }
      assert Join(parts, Separator) == line by {
        assert Join(parts[1..], Separator) == value;
      }
      JoinThenSplit(parts, Separator);
    }
    assert Key(line) == key by {
      TrimSpaceOfPadded(indent, key, []);
      assert indent + key + [] == indent + key;
    }
    assert Value(line) == value by {
      TrimSpaceOfPadded([], value, []);
      assert [] + value + [] == value;
    }
    var lines: seq<string> := [line];
    assert lines[..0] == [];
  }

  /** A "#" in the first column makes the whole line a comment. */
  lemma CommentExample()
    ensures Table(["#a = 1 "]) == map[]
  {
    assert IsComment("#a = 1 ");
    assert ["#a = 1 "][..0] == [];
  }
}
