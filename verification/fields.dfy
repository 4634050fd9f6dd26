/** The quote-aware field splitter inlined in `parseSongs`
    (app/src/lib/dataParser.ts, lines 14-30).  A line is scanned left to
    right with an accumulator for the current field and an "inside quotes"
    flag: a double quote toggles the flag and is dropped, a comma outside
    quotes closes the field, every other character is kept.  Unbalanced
    quotes are not an error. */
module Fields {
  import opened Text

  const Quote: char := '"'
  const Comma: char := ','

  /** The scan state: fields closed so far, the field being read, and
      whether the scan is inside a quoted region. */
  datatype Scanner = Scanner(fields: seq<string>, current: string, inQuotes: bool)

  const Start: Scanner := Scanner([], "", false)

  /** One iteration of the scan loop on character `c`. */
  function Step(st: Scanner, c: char): Scanner {
    if c == Quote then st.(inQuotes := !st.inQuotes)
    else if c == Comma && !st.inQuotes then Scanner(st.fields + [st.current], "", st.inQuotes)
    else st.(current := st.current + [c])
  }

  /** A position is inside quotes exactly when an odd number of quotes
      precedes it. */
  predicate OddQuotes(prefix: string) {
    multiset(prefix)[Quote] % 2 == 1
  }

  /** The number of field-closing commas of a line, counted independently
      of the scanner: commas preceded by an even number of quotes. */
  function UnquotedCommas(line: string): nat
    decreases |line|
  {
    if |line| == 0 then 0
    else
      var p := line[..|line| - 1];
      UnquotedCommas(p) + if line[|line| - 1] == Comma && !OddQuotes(p) then 1 else 0
  }

  /** The scan state after the whole of `line` has been read. */
  function Scan(line: string): Scanner
    decreases |line|
  {
    if |line| == 0 then Start
    else Step(Scan(line[..|line| - 1]), line[|line| - 1])
  }

  /** What the scan state means: the scan is inside quotes exactly after an
      odd number of quotes, one field has been closed per comma outside
      quotes, and no quote character is ever kept. */
  lemma {:induction false} ScanSpec(line: string)
    ensures Scan(line).inQuotes <==> OddQuotes(line)
    ensures |Scan(line).fields| == UnquotedCommas(line)
    ensures Quote !in Scan(line).current
    ensures forall i :: 0 <= i < |Scan(line).fields| ==> Quote !in Scan(line).fields[i]
    decreases |line|
  {
    if |line| > 0 {
      var p := line[..|line| - 1];
      assert line == p + [line[|line| - 1]];
      ScanSpec(p);
    }
  }

  /** The fields of a line: the closed fields and the final accumulator,
      which is always pushed.  There is one field more than there are
      commas outside quotes. */
  function SplitFields(line: string): (fields: seq<string>)
    ensures |fields| == UnquotedCommas(line) + 1
  {
    ScanSpec(line);
    var st := Scan(line);
    st.fields + [st.current]
  }

  /** One field more than there are commas outside quotes, and no field
      holds a quote. */
  lemma SplitFieldsSpec(line: string)
    ensures |SplitFields(line)| == UnquotedCommas(line) + 1
    ensures forall i :: 0 <= i < |SplitFields(line)| ==> Quote !in SplitFields(line)[i]
  {
    ScanSpec(line);
  }

  /** The scan of `dataParser.ts` lines 14-30, written as the loop it is. */
  method SplitLine(line: string) returns (fields: seq<string>)
    ensures fields == SplitFields(line)
    ensures |fields| == UnquotedCommas(line) + 1
    ensures Join(fields, Comma) == RemoveAll(line, Quote)
  {
    fields := [];
    var current := "";
    var inQuotes := false;
    for i := 0 to |line|
      invariant Scanner(fields, current, inQuotes) == Scan(line[..i])
    {
      assert line[..i + 1] == line[..i] + [line[i]];
      var c := line[i];
      if c == Quote {
        inQuotes := !inQuotes;
      } else if c == Comma && !inQuotes {
        fields := fields + [current];
        current := "";
      } else {
        current := current + [c];
      }
    }
    assert line[..|line|] == line;
    fields := fields + [current];
    SplitFieldsSpec(line);
    SplitFieldsJoin(line);
  }

  /** Joining the fields with commas gives back the line with its quotes
      removed: apart from the quotes, no character is lost or reordered. */
  lemma {:induction false} SplitFieldsJoin(line: string)
    ensures Join(SplitFields(line), Comma) == RemoveAll(line, Quote)
    decreases |line|
  {
    if |line| > 0 {
      var p := line[..|line| - 1];
      var c := line[|line| - 1];
      assert line == p + [c];
      SplitFieldsJoin(p);
      var st := Scan(p);
      if c == Quote {
      } else if c == Comma && !st.inQuotes {
        JoinSnocEmpty(st.fields + [st.current], Comma);
      } else {
        JoinExtendLast(st.fields + [st.current], Comma, c);
        assert (st.fields + [st.current])[..|st.fields|] == st.fields;
      }
    }
  }

  /** On a line without quotes the quote-aware splitter agrees with the
      plain `split(',')` the DJ loader uses. */
  lemma {:induction false} SplitFieldsWithoutQuotes(line: string)
    requires Quote !in line
    ensures SplitFields(line) == Split(line, Comma)
    decreases |line|
  {
    if |line| > 0 {
      var p := line[..|line| - 1];
      var c := line[|line| - 1];
      assert line == p + [c];
      assert Quote !in p by {
        assert forall i :: 0 <= i < |p| ==> p[i] == line[i];
      }
      SplitFieldsWithoutQuotes(p);
      var st := Scan(p);
      assert !st.inQuotes by {
        ScanSpec(p);
        assert multiset(p)[Quote] == 0;
      }
      ScanSnoc(p, c);
      if c == Comma {
        SplitSnocSeparator(p, Comma);
      } else {
        SplitSnocOther(p, c, Comma);
        assert (st.fields + [st.current])[..|st.fields|] == st.fields;
      }
    }
  }

  /** Without a comma outside quotes there is exactly one field: the line
      with its quotes removed. */
  lemma SplitFieldsSingle(line: string)
    requires UnquotedCommas(line) == 0
    ensures SplitFields(line) == [RemoveAll(line, Quote)]
  {
    SplitFieldsSpec(line);
    SplitFieldsJoin(line);
  }

  /** A line with no comma at all has no comma outside quotes. */
  lemma {:induction false} NoCommaNoUnquotedComma(line: string)
    requires Comma !in line
    ensures UnquotedCommas(line) == 0
    decreases |line|
  {
    if |line| > 0 {
      var p := line[..|line| - 1];
      assert Comma !in p by {
        assert forall i :: 0 <= i < |p| ==> p[i] == line[i];
      }
      NoCommaNoUnquotedComma(p);
    }
  }

  /** Scanning one more character is one more step. */
  lemma ScanSnoc(p: string, c: char)
    ensures Scan(p + [c]) == Step(Scan(p), c)
  {
    assert (p + [c])[..|p|] == p;
  }

  /** Scanning continues from a field boundary: after a prefix that ends
      outside quotes with an empty accumulator, the rest of the line is
      scanned as if it were a line of its own. */
  lemma {:induction false} ScanAfterBoundary(p: string, b: string)
    requires Scan(p).current == "" && !Scan(p).inQuotes
    ensures Scan(p + b) == Scanner(Scan(p).fields + Scan(b).fields, Scan(b).current, Scan(b).inQuotes)
    decreases |b|
  {
    if |b| == 0 {
      assert p + b == p;
    } else {
      var b' := b[..|b| - 1];
      var c := b[|b| - 1];
      assert b == b' + [c];
      assert p + b == (p + b') + [c];
      ScanAfterBoundary(p, b');
      ScanSnoc(p + b', c);
      ScanSnoc(b', c);
    }
  }

  /** A comma outside quotes cuts the line into two independent halves:
      the fields of `a + "," + b` are the fields of `a` followed by the
      fields of `b`. */
  lemma SplitFieldsAtComma(a: string, b: string)
    requires !OddQuotes(a)
    ensures SplitFields(a + [Comma] + b) == SplitFields(a) + SplitFields(b)
  {
    var p := a + [Comma];
    ScanSpec(a);
    ScanSnoc(a, Comma);
    ScanAfterBoundary(p, b);
  }

  /** Inside a quote opened anywhere outside quotes, whether at the start
      of the line, after closed fields or in the middle of a field, every
      character up to the next quote, commas included, goes to the current
      field, and no field is closed. */
  lemma {:induction false} ScanInsideQuotes(p: string, s: string)
    requires !Scan(p).inQuotes
    requires Quote !in s
    ensures Scan(p + [Quote] + s) == Scanner(Scan(p).fields, Scan(p).current + s, true)
    decreases |s|
  {
    if |s| == 0 {
      assert p + [Quote] + s == p + [Quote];
      ScanSnoc(p, Quote);
    } else {
      var s' := s[..|s| - 1];
      var c := s[|s| - 1];
      assert Quote !in s' by {
        assert forall i :: 0 <= i < |s'| ==> s'[i] == s[i];
      }
      ScanInsideQuotes(p, s');
      assert p + [Quote] + s == (p + [Quote] + s') + [c];
      ScanSnoc(p + [Quote] + s', c);
      assert Scan(p).current + s' + [c] == Scan(p).current + s;
    }
  }

  /** A line that is one quoted region is one field: its content, commas
      kept, quotes dropped. */
  lemma SplitFieldsQuoted(s: string)
    requires Quote !in s
    ensures SplitFields([Quote] + s + [Quote]) == [s]
  {
    var line := [Quote] + s + [Quote];
    assert line[..|line| - 1] == [] + [Quote] + s;
    assert Scan([]) == Start;
    ScanInsideQuotes([], s);
    assert Scan(line[..|line| - 1]) == Scanner([], s, true);
  }
}
