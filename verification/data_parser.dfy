/** The two loaders of app/src/lib/dataParser.ts, with the fetched text as
    a parameter.  Both drop the first line as a header, skip lines that are
    blank after `trim()`, split each remaining line and decode it by
    position.  `parseSongs` splits with the quote-aware splitter, keeps rows
    of at least nine fields and stores them in a map keyed by the parsed id
    (a later row overwrites an earlier one); `parseDJs` splits with a plain
    `split(',')`, keeps rows of at least six fields and appends them in
    input order. */
module DataParser {
  import opened Wrappers
  import opened Text
  import opened Numbers
  import opened Fields
  import opened Types

  const Newline: char := '\n'
  const SongFieldCount: nat := 9
  const DJFieldCount: nat := 6

  /** `text.split('\n').slice(1)`: every line after the header. */
  function DataLines(text: string): (lines: seq<string>)
    ensures |lines| == multiset(text)[Newline]
    ensures forall i :: 0 <= i < |lines| ==> Newline !in lines[i]
  {
    Split(text, Newline)[1..]
  }

  /** The header is dropped whatever it says: the data lines of
      `header + "\n" + body` are the lines of `body`, and a text without a
      line break has no data lines at all. */
  lemma DataLinesAfterHeader(header: string, body: string)
    requires Newline !in header
    ensures DataLines(header + [Newline] + body) == Split(body, Newline)
    ensures DataLines(header) == []
  {
    SplitAtSeparator(header, Newline, body);
    SplitWithoutSeparator(header, Newline);
  }

  // ---------------------------------------------------------------------
  // Row filtering shared by both loaders
  // ---------------------------------------------------------------------

  /** The records of the kept rows, in row order; a discarded row is
      `None`. */
  function Kept<T>(rows: seq<Option<T>>): (kept: seq<T>)
    ensures |kept| <= |rows|
    decreases |rows|
  {
    if |rows| == 0 then []
    else
      var kept := Kept(rows[..|rows| - 1]);
      match rows[|rows| - 1]
      case None => kept
      case Some(x) => kept + [x]
  }

  /** `f` applied to each element: each line decoded on its own, or each
      record rendered on its own. */
  function Each<A, B>(f: A -> B, xs: seq<A>): (ys: seq<B>)
    ensures |ys| == |xs|
  {
    seq(|xs|, i requires 0 <= i < |xs| => f(xs[i]))
  }

  /** Decoding distributes over concatenation of lines. */
  lemma EachAppend<A, B>(f: A -> B, first: seq<A>, second: seq<A>)
    ensures Each(f, first + second) == Each(f, first) + Each(f, second)
  {
    var all := first + second;
    assert forall i :: 0 <= i < |all| ==>
      Each(f, all)[i] == (Each(f, first) + Each(f, second))[i];
  }

  /** The records of consecutive runs of rows are the concatenation of
      their records: rows are neither reordered nor merged. */
  lemma {:induction false} KeptAppend<T>(first: seq<Option<T>>, second: seq<Option<T>>)
    ensures Kept(first + second) == Kept(first) + Kept(second)
    decreases |second|
  {
    var rows := first + second;
    if |second| == 0 {
      assert rows == first;
    } else {
      var init := second[..|second| - 1];
      KeptAppend(first, init);
      assert rows[..|rows| - 1] == first + init;
      assert rows[|rows| - 1] == second[|second| - 1];
    }
  }

  /** A record is among the kept ones exactly when some row holds it. */
  lemma {:induction false} KeptMembers<T>(rows: seq<Option<T>>, x: T)
    ensures x in Kept(rows) <==> exists j :: 0 <= j < |rows| && rows[j] == Some(x)
    decreases |rows|
  {
    if |rows| > 0 {
      var init := rows[..|rows| - 1];
      KeptMembers(init, x);
      if x in Kept(init) {
        var j :| 0 <= j < |init| && init[j] == Some(x);
        assert rows[j] == init[j];
      }
      if j :| 0 <= j < |rows| && rows[j] == Some(x) {
        if j < |init| {
          assert init[j] == rows[j];
        }
      }
    }
  }

  // ---------------------------------------------------------------------
  // Songs (dataParser.ts lines 3-49)
  // ---------------------------------------------------------------------

  /** Positional decoding of a song row: fewer than nine fields discard the
      row; otherwise the id is `parseInt` of field 0 and the other members
      are fields 1 to 8 in order.  Fields past the ninth are ignored. */
  function DecodeSong(fields: seq<string>): (row: Option<Song>)
    ensures row.None? <==> |fields| < SongFieldCount
    ensures row.Some? ==>
              && row.value.id == ParseInt(fields[0])
              && row.value.Columns() == fields[1..SongFieldCount]
  {
    if |fields| < SongFieldCount then None
    else
      Some(Song(ParseInt(fields[0]), fields[1], fields[2], fields[3], fields[4],
                fields[5], fields[6], fields[7], fields[8]))
  }

  /** What one data line contributes to the catalog: nothing when it is
      blank, otherwise its quote-aware fields decoded by position.  A
      non-blank line is kept exactly when it has at least eight commas
      outside quotes. */
  function SongRow(line: string): (row: Option<Song>)
    ensures row.None? <==> IsBlank(line) || UnquotedCommas(line) + 1 < SongFieldCount
  {
    if IsBlank(line) then None else DecodeSong(SplitFields(line))
  }

  /** The catalog built from decoded rows, first to last: each kept row is
      stored under its own id, overwriting what was there. */
  function StoreSongs(rows: seq<Option<Song>>): (songs: map<Option<int>, Song>)
    ensures forall k :: k in songs ==> songs[k].id == k
    decreases |rows|
  {
    if |rows| == 0 then map[]
    else
      var songs := StoreSongs(rows[..|rows| - 1]);
      match rows[|rows| - 1]
      case None => songs
      case Some(song) => songs[song.id := song]
  }

  /** `parseSongs` on the fetched text.  Every song is stored under its
      own parsed id. */
  function ParseSongs(text: string): (songs: map<Option<int>, Song>)
    ensures forall k :: k in songs ==> songs[k].id == k
  {
    StoreSongs(Each(SongRow, DataLines(text)))
  }

  /** The row stores a song under `key`. */
  predicate StoresKey(row: Option<Song>, key: Option<int>) {
    row.Some? && row.value.id == key
  }

  /** The keys of the catalog are exactly the ids of the kept rows. */
  lemma {:induction false} StoreSongsKeys(rows: seq<Option<Song>>, key: Option<int>)
    ensures key in StoreSongs(rows) <==> exists j :: 0 <= j < |rows| && StoresKey(rows[j], key)
    decreases |rows|
  {
    if |rows| > 0 {
      var init := rows[..|rows| - 1];
      StoreSongsKeys(init, key);
      if key in StoreSongs(init) {
        var j :| 0 <= j < |init| && StoresKey(init[j], key);
        assert rows[j] == init[j];
      }
      if j :| 0 <= j < |rows| && StoresKey(rows[j], key) {
        if j < |init| {
          assert init[j] == rows[j];
        }
      }
    }
  }

  /** Last write wins: under each id the catalog holds the song of the last
      kept row with that id. */
  lemma {:induction false} StoreSongsLastWriteWins(rows: seq<Option<Song>>, j: nat)
    requires j < |rows| && rows[j].Some?
    requires forall k :: j < k < |rows| ==> !StoresKey(rows[k], rows[j].value.id)
    ensures rows[j].value.id in StoreSongs(rows)
    ensures StoreSongs(rows)[rows[j].value.id] == rows[j].value
    decreases |rows|
  {
    var init := rows[..|rows| - 1];
    if j < |rows| - 1 {
      assert init[j] == rows[j];
      assert !StoresKey(rows[|rows| - 1], rows[j].value.id);
      StoreSongsLastWriteWins(init, j);
    }
  }

  /** The method form of `parseSongs`, following the loop of lines 10-46
      with the inline splitter as `SplitLine`. */
  method LoadSongs(text: string) returns (songs: map<Option<int>, Song>)
    ensures songs == ParseSongs(text)
    ensures forall k :: k in songs ==> songs[k].id == k
  {
    var lines := DataLines(text);
    ghost var rows := Each(SongRow, lines);
    songs := map[];
    for i := 0 to |lines|
      invariant songs == StoreSongs(rows[..i])
    {
      assert rows[..i + 1][..i] == rows[..i];
      var line := lines[i];
      assert rows[i] == SongRow(line);
      if !IsBlank(line) {
        var fields := SplitLine(line);
        if |fields| >= SongFieldCount {
          var song := Song(ParseInt(fields[0]), fields[1], fields[2], fields[3],
                           fields[4], fields[5], fields[6], fields[7], fields[8]);
          songs := songs[song.id := song];
        }
      }
    }
    assert rows[..|lines|] == rows;
  }

  // ---------------------------------------------------------------------
  // DJs (dataParser.ts lines 51-76)
  // ---------------------------------------------------------------------

  /** `field ? parseInt(field) : null`: the empty string is the only falsy
      string, so it alone becomes `null`; anything else is parsed, and may
      parse to `NaN`. */
  function NullableIdOf(field: string): (id: NullableId)
    ensures id.Null? <==> field == ""
    ensures id.Id? ==> id.value == ParseInt(field)
  {
    if field == "" then Null else Id(ParseInt(field))
  }

  /** Positional decoding of a DJ row: fewer than six fields discard the
      row; otherwise field 0 is the name and fields 1 to 5 are the ids.
      Fields past the sixth are ignored. */
  function DecodeDJ(fields: seq<string>): (row: Option<DJ>)
    ensures row.None? <==> |fields| < DJFieldCount
    ensures row.Some? ==>
              && row.value.name == fields[0]
              && forall k :: 1 <= k < DJFieldCount ==> row.value.Ids()[k - 1] == NullableIdOf(fields[k])
  {
    if |fields| < DJFieldCount then None
    else
      var ids := seq(5, k requires 0 <= k < 5 => NullableIdOf(fields[k + 1]));
      Some(DJ(fields[0], ids[0], ids[1], ids[2], ids[3], ids[4]))
  }

  /** What one data line contributes to the roster: nothing when it is
      blank, otherwise its plain comma-split fields decoded by position.
      Quotes get no special treatment: a non-blank line is kept exactly
      when it has at least five commas. */
  function DJRow(line: string): (row: Option<DJ>)
    ensures row.None? <==> IsBlank(line) || multiset(line)[Comma] + 1 < DJFieldCount
  {
    if IsBlank(line) then None else DecodeDJ(Split(line, Comma))
  }

  /** `parseDJs` on the fetched text.  Each line break starts at most one
      DJ. */
  function ParseDJs(text: string): (djs: seq<DJ>)
    ensures |djs| <= multiset(text)[Newline]
  {
    Kept(Each(DJRow, DataLines(text)))
  }

  /** The method form of `parseDJs`, following the loop of lines 58-73. */
  method LoadDJs(text: string) returns (djs: seq<DJ>)
    ensures djs == ParseDJs(text)
    ensures |djs| <= multiset(text)[Newline]
  {
    var lines := DataLines(text);
    ghost var rows := Each(DJRow, lines);
    djs := [];
    for i := 0 to |lines|
      invariant djs == Kept(rows[..i])
    {
      assert rows[..i + 1][..i] == rows[..i];
      var line := lines[i];
      assert rows[i] == DJRow(line);
      if !IsBlank(line) {
        var fields := Split(line, Comma);
        if |fields| >= DJFieldCount {
          var dj := DJ(fields[0], NullableIdOf(fields[1]), NullableIdOf(fields[2]),
                       NullableIdOf(fields[3]), NullableIdOf(fields[4]), NullableIdOf(fields[5]));
          djs := djs + [dj];
        }
      }
    }
    assert rows[..|lines|] == rows;
  }

  // ---------------------------------------------------------------------
  // Properties of both loaders on whole texts
  // ---------------------------------------------------------------------

  /** A line of whitespace only contributes nothing to either loader. */
  lemma BlankLineContributesNothing(line: string)
    requires AllWhitespace(line)
    ensures SongRow(line) == None
    ensures DJRow(line) == None
  {
  }

  /** The first line never contributes: whatever the header says, both
      loaders give the same result, and a text that is only a header gives
      an empty catalog and an empty roster. */
  lemma HeaderIgnored(header: string, otherHeader: string, body: string)
    requires Newline !in header && Newline !in otherHeader
    ensures ParseSongs(header + [Newline] + body) == ParseSongs(otherHeader + [Newline] + body)
    ensures ParseDJs(header + [Newline] + body) == ParseDJs(otherHeader + [Newline] + body)
    ensures ParseSongs(header) == map[]
    ensures ParseDJs(header) == []
  {
    DataLinesAfterHeader(header, body);
    DataLinesAfterHeader(otherHeader, body);
  }

  /** The keys of the catalog are exactly the parsed ids of the kept data
      lines. */
  lemma ParseSongsKeys(text: string, key: Option<int>)
    ensures key in ParseSongs(text) <==>
              exists j :: 0 <= j < |DataLines(text)| && StoresKey(SongRow(DataLines(text)[j]), key)
  {
    var lines := DataLines(text);
    var rows := Each(SongRow, lines);
    StoreSongsKeys(rows, key);
    assert forall j :: 0 <= j < |lines| ==> rows[j] == SongRow(lines[j]);
  }

  /** Under the id of a kept data line that no later kept line repeats,
      the catalog holds that line's song. */
  lemma ParseSongsLastWriteWins(text: string, j: nat)
    requires j < |DataLines(text)|
    requires SongRow(DataLines(text)[j]).Some?
    requires forall k :: j < k < |DataLines(text)| ==>
               !StoresKey(SongRow(DataLines(text)[k]), SongRow(DataLines(text)[j]).value.id)
    ensures var song := SongRow(DataLines(text)[j]).value;
            song.id in ParseSongs(text) && ParseSongs(text)[song.id] == song
  {
    var lines := DataLines(text);
    var rows := Each(SongRow, lines);
    assert forall k :: 0 <= k < |lines| ==> rows[k] == SongRow(lines[k]);
    StoreSongsLastWriteWins(rows, j);
  }

  /** The roster keeps input order: the roster of a text whose data lines
      are those of `first` followed by those of `second` is the roster of
      `first` followed by the roster of `second`. */
  lemma ParseDJsInOrder(header: string, first: string, second: string)
    requires Newline !in header
    ensures ParseDJs(header + [Newline] + first + [Newline] + second)
         == ParseDJs(header + [Newline] + first) + ParseDJs(header + [Newline] + second)
  {
    assert header + [Newline] + first + [Newline] + second
        == header + [Newline] + (first + [Newline] + second);
    DataLinesAfterHeader(header, first + [Newline] + second);
    DataLinesAfterHeader(header, first);
    DataLinesAfterHeader(header, second);
    SplitAtSeparator(first, Newline, second);
    EachAppend(DJRow, Split(first, Newline), Split(second, Newline));
    KeptAppend(Each(DJRow, Split(first, Newline)), Each(DJRow, Split(second, Newline)));
  }

  /** A DJ is in the roster exactly when some data line decodes to it. */
  lemma ParseDJsMembers(text: string, dj: DJ)
    ensures dj in ParseDJs(text) <==>
              exists j :: 0 <= j < |DataLines(text)| && DJRow(DataLines(text)[j]) == Some(dj)
  {
    var lines := DataLines(text);
    var rows := Each(DJRow, lines);
    KeptMembers(rows, dj);
    assert forall j :: 0 <= j < |lines| ==> rows[j] == DJRow(lines[j]);
  }
}
