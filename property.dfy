/**
 * The earlier revision of the reader (property.go, package main): a
 * `propFile` whose `properties` map is filled from every line of the file,
 * split on '=' with no comment skipping and no trimming, and read back
 * with `Get`, `GetAsInt` and `Size`.
 */
module Property {
  import opened Results
  import opened GoStrings
  import opened GoStrconv
  import opened LineSource

  const Separator: char := '='

  /** `keyValue[0]`: the raw text of `line` before its first '='. */
  function Key(line: string): (k: string)
    ensures Separator !in k
  {
    Split(line, Separator)[0]
  }

  /** `keyValue[1]`: the raw text between the first '=' and the next '=' or the end. */
  function Value(line: string): (v: string)
    requires Separator in line
    ensures Separator !in v
  {
    Split(line, Separator)[1]
  }

  /** Every line has an '=', so no line makes `keyValue[1]` out of range. */
  predicate AllSplittable(lines: seq<string>)
  {
    forall i | 0 <= i < |lines| :: Separator in lines[i]
  }

  /** Line `i` is the first line without '=': the line the Go loop panics on. */
  predicate IsFirstMalformed(lines: seq<string>, i: nat)
  {
    i < |lines| && Separator !in lines[i] && AllSplittable(lines[..i])
  }

  /** No two lines share a key. */
  predicate DistinctKeys(lines: seq<string>)
  {
    forall i, j | 0 <= i < j < |lines| :: Key(lines[i]) != Key(lines[j])
  }

  /** The map the loop builds: each line in turn stores its value under its key. */
  function Table(lines: seq<string>): (m: map<string, string>)
    requires AllSplittable(lines)
    ensures forall k | k in m :: Separator !in k && Separator !in m[k]
  {
    if lines == [] then map[]
    else
      var last := lines[|lines| - 1];
      Table(lines[..|lines| - 1])[Key(last) := Value(last)]
  }

  class PropFile {
    var fileName: string
    var properties: map<string, string>

    /** `&propFile{fileName: fileName, properties: map[string]string{}}`. */
    constructor (fileName: string)
      ensures this.fileName == fileName && properties == map[]
    {
      this.fileName := fileName;
      properties := map[];
    }

    /**
     * `New(fileName)`: allocate the store with an empty map, then for each
     * scanned line store `keyValue[1]` under `keyValue[0]`.
     */
    static method New(fileName: string, src: Source) returns (r: Result<PropFile, LoadError>)
      ensures src.Unopenable? ==> r == Failure(OpenError)
      ensures src.Scanned? && !AllSplittable(src.lines) ==>
        r.Failure? && r.error.MalformedLine? && IsFirstMalformed(src.lines, r.error.index)
      ensures src.Scanned? && AllSplittable(src.lines) && src.scanFailed ==> r == Failure(ScanError)
      ensures src.Scanned? && AllSplittable(src.lines) && !src.scanFailed ==>
        && r.Success? && fresh(r.value)
        && r.value.fileName == fileName
        && r.value.properties == Table(src.lines)
    {
      if src.Unopenable? {
        return Failure(OpenError);
      }
      var file := new PropFile(fileName);
      var lines := src.lines;
      var i := 0;
      while i < |lines|
        invariant 0 <= i <= |lines|
        invariant AllSplittable(lines[..i])
        invariant file.fileName == fileName && file.properties == Table(lines[..i])
      {
        var line := lines[i];
        var keyValue := Split(line, Separator);
        if |keyValue| < 2 {
          // keyValue[1] is out of range: the Go program panics on this line
          return Failure(MalformedLine(i));
        }
        file.properties := file.properties[keyValue[0] := keyValue[1]];
        assert lines[..i + 1][..i] == lines[..i];
        i := i + 1;
      }
      assert lines[..i] == lines;
      if src.scanFailed {
        return Failure(ScanError);
      }
      return Success(file);
    }

    /** `p.properties[property]`: an absent key reads as Go's zero value, the empty string. */
    function Get(property: string): (value: string)
      reads this
      ensures property in properties ==> value == properties[property]
      ensures property !in properties ==> value == ""
    {
      if property in properties then properties[property] else ""
    }

    /**
     * `strconv.Atoi(p.Get(property))`, with the number replaced by 0 on
     * error: no error exactly when the stored text is a decimal literal in
     * the 64-bit range, and then its value; an absent key is an error.
     */
    function GetAsInt(property: string): (r: (int, Option<NumError>))
      reads this
      ensures r.1.None? <==> IsIntLiteral(Get(property)) && MinInt <= LiteralValue(Get(property)) <= MaxInt
      ensures r.1.None? ==> r.0 == LiteralValue(Get(property))
      ensures r.1.Some? ==> r.0 == 0
      ensures property !in properties ==> r == (0, Some(ErrSyntax))
    {
      AtoiMatchesLiteral(Get(property));
      match Atoi(Get(property))
      case Failure(e) => (0, Some(e))
      case Success(v) => (v, None)
    }

    /** `len(p.properties)`. */
    function Size(): nat
      reads this
    {
      |properties|
    }
  }

  // ------------------------------------------------------------- lemmas

  /**
   * Where key and value come from: `eq` is the first '=' of the line and
   * `end` the next '=' or the end; the key is the raw text before `eq` and
   * the value the raw text between them, so anything after a second '=' is
   * lost.
   */
  lemma LineShape(line: string) returns (eq: nat, end: nat)
    requires Separator in line
    ensures eq < end <= |line|
    ensures line[eq] == Separator && Separator !in line[..eq]
    ensures Separator !in line[eq + 1..end] && (end == |line| || line[end] == Separator)
    ensures Key(line) == line[..eq] && Value(line) == line[eq + 1..end]
  {
    var p := Split(line, Separator);
    FirstTwoPieces(line, Separator);
    eq := |p[0]|;
    end := eq + 1 + |p[1]|;
    assert line[..end][..eq] == line[..eq] == p[0];
    assert line[..end][eq + 1..] == line[eq + 1..end] == p[1];
  }

  /** The keys of the table are exactly the raw keys of the lines: no line is skipped. */
  lemma {:induction false} TableKeys(lines: seq<string>, k: string)
    requires AllSplittable(lines)
    ensures k in Table(lines) <==> exists i | 0 <= i < |lines| :: Key(lines[i]) == k
  {
    if lines != [] {
      var init := lines[..|lines| - 1];
      TableKeys(init, k);
      if exists i | 0 <= i < |init| :: Key(init[i]) == k {
        var i :| 0 <= i < |init| && Key(init[i]) == k;
        assert Key(lines[i]) == k;
      }
      if exists i | 0 <= i < |lines| :: Key(lines[i]) == k {
        var i :| 0 <= i < |lines| && Key(lines[i]) == k;
        if i < |init| {
          assert Key(init[i]) == k;
        }
      }
    }
  }

  /** Last write wins: a key's entry holds the value of the last line with that key. */
  lemma {:induction false} TableLastWins(lines: seq<string>, i: nat)
    requires AllSplittable(lines) && i < |lines|
    requires forall j | i < j < |lines| :: Key(lines[j]) != Key(lines[i])
    ensures Key(lines[i]) in Table(lines) && Table(lines)[Key(lines[i])] == Value(lines[i])
  {
    var n := |lines| - 1;
    if i < n {
      var init := lines[..n];
      assert init[i] == lines[i];
      TableLastWins(init, i);
    }
  }

  /**
   * The table has at most one entry per line, exactly one per line when
   * the keys are distinct, and at least one after a non-empty file.
   */
  lemma {:induction false} TableSize(lines: seq<string>)
    requires AllSplittable(lines)
    ensures |Table(lines)| <= |lines|
    ensures |Table(lines)| == |lines| <==> DistinctKeys(lines)
    ensures lines != [] ==> |Table(lines)| > 0
  {
    if lines != [] {
      var n := |lines| - 1;
      var init := lines[..n];
      var t := Table(init);
      var key := Key(lines[n]);
      TableSize(init);
      TableKeys(init, key);
      assert Table(lines) == t[key := Value(lines[n])];
      assert key in Table(lines);
      if key in t {
        assert Table(lines).Keys == t.Keys;
        var i :| 0 <= i < |init| && Key(init[i]) == key;
        assert Key(lines[i]) == Key(lines[n]);
      } else {
        assert Table(lines).Keys == t.Keys + {key};
        assert |Table(lines)| == |t| + 1;
        if DistinctKeys(init) {
          forall i, j | 0 <= i < j < |lines| ensures Key(lines[i]) != Key(lines[j]) {
            if j == n {
              assert Key(init[i]) == Key(lines[i]);
            } else {
              assert Key(init[i]) != Key(init[j]);
            }
          }
        }
        if DistinctKeys(lines) {
          forall i, j | 0 <= i < j < |init| ensures Key(init[i]) != Key(init[j]) {
            assert Key(lines[i]) != Key(lines[j]);
          }
        }
      }
    }
  }

  /** After `New`, `Get` answers with the last value written for a key, or "" when no line has it. */
  lemma GetAfterNew(p: PropFile, lines: seq<string>, k: string)
    requires AllSplittable(lines) && p.properties == Table(lines)
    ensures (forall i | 0 <= i < |lines| :: Key(lines[i]) != k) ==> p.Get(k) == ""
    ensures forall i | 0 <= i < |lines| && Key(lines[i]) == k ::
      (forall j | i < j < |lines| :: Key(lines[j]) != k) ==> p.Get(k) == Value(lines[i])
  {
    TableKeys(lines, k);
    forall i | 0 <= i < |lines| && Key(lines[i]) == k && (forall j | i < j < |lines| :: Key(lines[j]) != k)
      ensures p.Get(k) == Value(lines[i])
    {
      TableLastWins(lines, i);
    }
  }

  /** After `New`, `Size` counts the distinct keys: at most one per line, and more than none after a non-empty file. */
  lemma SizeAfterNew(p: PropFile, lines: seq<string>)
    requires AllSplittable(lines) && p.properties == Table(lines)
    ensures p.Size() == |set i | 0 <= i < |lines| :: Key(lines[i])|
    ensures p.Size() <= |lines|
    ensures p.Size() == |lines| <==> DistinctKeys(lines)
    ensures lines != [] ==> p.Size() > 0
  {
    TableSize(lines);
    var keys := set i | 0 <= i < |lines| :: Key(lines[i]);
    forall k ensures k in p.properties <==> k in keys {
      TableKeys(lines, k);
    }
    assert p.properties.Keys == keys;
  }

  /** `GetAsInt` reads back any `int` stored in decimal. */
  lemma GetAsIntOfDecimal(p: PropFile, k: string, n: int)
    requires MinInt <= n <= MaxInt && p.Get(k) == FormatInt(n)
    ensures p.GetAsInt(k) == (n, None)
  {
    AtoiFormatInt(n);
  }

  /** Nothing is trimmed and the text after a second '=' is dropped. */
  lemma RawSplitExample()
    ensures Table([" a = 1=2"]) == map[" a " := " 1"]
  {
    var line := " a = 1=2";
    var parts := [" a ", " 1", "2"];
    assert Join(parts, Separator) == line;
    JoinThenSplit(parts, Separator);
    assert [line][..0] == [];
  }
}
