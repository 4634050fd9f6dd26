/** Writing records out as the loaders' input format, the independent
    reference the loaders are checked against: a record rendered as a CSV
    line decodes back to itself, and a whole rendered file loads back to
    the records it was rendered from. */
module RoundTrip {
  import opened Wrappers
  import opened Text
  import opened Numbers
  import opened Fields
  import opened Types
  import opened DataParser

  /** The text of a `number`: `NaN` or the decimal rendering. */
  function IdText(id: Option<int>): string {
    match id
    case None => "NaN"
    case Some(n) => Show(n)
  }

  /** The text of a `number | null` column: empty for `null`. */
  function NullableIdText(id: NullableId): string {
    match id
    case Null => ""
    case Id(v) => IdText(v)
  }

  /** A catalog line: id first, then the eight text columns. */
  function SongLine(song: Song): string {
    Join([IdText(song.id)] + song.Columns(), Comma)
  }

  /** A roster line: name first, then the five id columns. */
  function DJLine(dj: DJ): string {
    Join([dj.name, NullableIdText(dj.id1), NullableIdText(dj.id2), NullableIdText(dj.id3),
          NullableIdText(dj.id4), NullableIdText(dj.all)], Comma)
  }

  /** A file: the header, a line break, and the rendered records one per
      line. */
  function FileText<T>(header: string, render: T -> string, records: seq<T>): string {
    header + [Newline] + Join(Each(render, records), Newline)
  }

  /** An id text is made of digits, a minus sign or the letters of `NaN`:
      never a quote, a comma or a line break. */
  lemma IdTextPlain(id: Option<int>)
    ensures |IdText(id)| > 0
    ensures Quote !in IdText(id) && Comma !in IdText(id) && Newline !in IdText(id)
  {
    match id
    case None =>
    case Some(n) =>
      var digits := ShowNat(if n < 0 then -n else n);
      assert forall i :: 0 <= i < |digits| ==> IsDigit(digits[i]);
      assert n < 0 ==> IdText(id) == ['-'] + digits;
  }

  /** `parseInt` reads an id text back to the id, `NaN` included. */
  lemma IdTextRoundTrip(id: Option<int>)
    ensures ParseInt(IdText(id)) == id
  {
    match id
    case None =>
      ParseIntWithoutDigits("NaN");
    case Some(n) =>
      ParseIntShow(n, []);
      assert Show(n) + [] == Show(n);
  }

  /** The nullable-id decoding reads a column text back to the id: `null`
      from the empty column, the number from any other. */
  lemma NullableIdRoundTrip(id: NullableId)
    ensures NullableIdOf(NullableIdText(id)) == id
  {
    match id
    case Null =>
    case Id(v) =>
      IdTextPlain(v);
      IdTextRoundTrip(v);
  }

  /** A line of two or more comma-joined columns is never blank. */
  lemma JoinedNotBlank(parts: seq<string>)
    requires |parts| >= 2
    ensures !IsBlank(Join(parts, Comma))
  {
    var line := Join(parts, Comma);
    JoinHasSeparator(parts, Comma);
    var i :| 0 <= i < |line| && line[i] == Comma;
    assert !IsWhitespace(line[i]);
  }

  /** A song whose text columns hold no quote and no comma is written as a
      line that the catalog loader decodes back to the same song. */
  lemma SongRowRoundTrip(song: Song)
    requires forall k :: 0 <= k < 8 ==> Quote !in song.Columns()[k] && Comma !in song.Columns()[k]
    ensures SongRow(SongLine(song)) == Some(song)
  {
    var parts := [IdText(song.id)] + song.Columns();
    var line := SongLine(song);
    assert SplitFields(line) == parts by {
      IdTextPlain(song.id);
      assert forall k :: 0 <= k < |parts| ==> Quote !in parts[k] && Comma !in parts[k];
      JoinWithout(parts, Comma, Quote);
      SplitFieldsWithoutQuotes(line);
      SplitJoin(parts, Comma);
    }
    assert !IsBlank(line) by {
      JoinedNotBlank(parts);
    }
    assert DecodeSong(parts) == Some(song) by {
      IdTextRoundTrip(song.id);
      assert parts[1..SongFieldCount] == song.Columns();
    }
  }

  /** A DJ whose name holds no comma is written as a line that the roster
      loader decodes back to the same DJ. */
  lemma DJRowRoundTrip(dj: DJ)
    requires Comma !in dj.name
    ensures DJRow(DJLine(dj)) == Some(dj)
  {
    var parts := [dj.name, NullableIdText(dj.id1), NullableIdText(dj.id2), NullableIdText(dj.id3),
                  NullableIdText(dj.id4), NullableIdText(dj.all)];
    var line := DJLine(dj);
    assert Split(line, Comma) == parts by {
      DJLineFields(dj);
    }
    assert !IsBlank(line) by {
      JoinedNotBlank(parts);
    }
    assert DecodeDJ(parts) == Some(dj) by {
      NullableIdRoundTrip(dj.id1);
      NullableIdRoundTrip(dj.id2);
      NullableIdRoundTrip(dj.id3);
      NullableIdRoundTrip(dj.id4);
      NullableIdRoundTrip(dj.all);
    }
  }

  /** A roster saved with Windows line breaks keeps a carriage return at
      the end of every data line, after the last column.  An empty `all`
      column then reads as the text `"\r"`, which is not empty, so the
      DJ gets `NaN` there instead of `null`; a number in that column still
      reads as itself, and the other columns are untouched. */
  lemma DJRowCarriageReturn(dj: DJ)
    requires Comma !in dj.name
    ensures DJRow(DJLine(dj) + ['\r'])
         == Some(dj.(all := if dj.all.Null? then Id(None) else dj.all))
  {
    var line := DJLine(dj) + ['\r'];
    var fields := [dj.name, NullableIdText(dj.id1), NullableIdText(dj.id2), NullableIdText(dj.id3),
                   NullableIdText(dj.id4), NullableIdText(dj.all) + ['\r']];
    DJFieldsCarriageReturn(dj);
    assert !IsBlank(line) by {
      CarriageReturnNotBlank(DJLine(dj));
    }
    assert DecodeDJ(fields) == Some(dj.(all := if dj.all.Null? then Id(None) else dj.all)) by {
      CarriageReturnColumn(dj.all);
      NullableIdRoundTrip(dj.id1);
      NullableIdRoundTrip(dj.id2);
      NullableIdRoundTrip(dj.id3);
      NullableIdRoundTrip(dj.id4);
    }
  }

  /** The comma-split fields of a roster line with a carriage return: the
      columns, with the carriage return stuck to the last one. */
  lemma DJFieldsCarriageReturn(dj: DJ)
    requires Comma !in dj.name
    ensures Split(DJLine(dj) + ['\r'], Comma)
         == [dj.name, NullableIdText(dj.id1), NullableIdText(dj.id2), NullableIdText(dj.id3),
             NullableIdText(dj.id4), NullableIdText(dj.all) + ['\r']]
  {
    DJLineFields(dj);
    SplitSnocOther(DJLine(dj), '\r', Comma);
  }

  /** The comma-split fields of a roster line are its columns. */
  lemma DJLineFields(dj: DJ)
    requires Comma !in dj.name
    ensures Split(DJLine(dj), Comma) == [dj.name, NullableIdText(dj.id1), NullableIdText(dj.id2),
                                         NullableIdText(dj.id3), NullableIdText(dj.id4), NullableIdText(dj.all)]
  {
    var parts := [dj.name, NullableIdText(dj.id1), NullableIdText(dj.id2), NullableIdText(dj.id3),
                  NullableIdText(dj.id4), NullableIdText(dj.all)];
    NullableIdPlain(dj.id1);
    NullableIdPlain(dj.id2);
    NullableIdPlain(dj.id3);
    NullableIdPlain(dj.id4);
    NullableIdPlain(dj.all);
    assert forall k :: 0 <= k < |parts| ==> Comma !in parts[k];
    SplitJoin(parts, Comma);
  }

  /** A line with a comma stays non-blank when a carriage return is
      appended. */
  lemma CarriageReturnNotBlank(line: string)
    requires Comma in line
    ensures !IsBlank(line + ['\r'])
  {
    var i :| 0 <= i < |line| && line[i] == Comma;
    assert (line + ['\r'])[i] == Comma;
  }

  /** The last column of a line with a carriage return: `null` turns into
      `NaN`, any other id reads as itself. */
  lemma CarriageReturnColumn(id: NullableId)
    ensures NullableIdOf(NullableIdText(id) + ['\r']) == if id.Null? then Id(None) else id
  {
    match id
    case Null =>
      ParseIntWithoutDigits(['\r']);
    case Id(None) =>
      assert forall i :: 0 <= i < 4 ==> !IsDigit((NullableIdText(id) + ['\r'])[i]);
      ParseIntWithoutDigits(NullableIdText(id) + ['\r']);
    case Id(Some(n)) =>
      ParseIntShow(n, ['\r']);
  }

  /** A column text holds no comma and no line break. */
  lemma NullableIdPlain(id: NullableId)
    ensures Comma !in NullableIdText(id) && Newline !in NullableIdText(id)
  {
    if id.Id? {
      IdTextPlain(id.value);
    }
  }

  /** A DJ whose name holds no line break is written on a single line. */
  lemma DJLineSingle(dj: DJ)
    requires Newline !in dj.name
    ensures Newline !in DJLine(dj)
  {
    var parts := [dj.name, NullableIdText(dj.id1), NullableIdText(dj.id2),
                  NullableIdText(dj.id3), NullableIdText(dj.id4), NullableIdText(dj.all)];
    NullableIdPlain(dj.id1);
    NullableIdPlain(dj.id2);
    NullableIdPlain(dj.id3);
    NullableIdPlain(dj.id4);
    NullableIdPlain(dj.all);
    JoinWithout(parts, Comma, Newline);
  }

  /** A song whose text columns hold no line break is written on a single
      line. */
  lemma SongLineSingle(song: Song)
    requires forall k :: 0 <= k < 8 ==> Newline !in song.Columns()[k]
    ensures Newline !in SongLine(song)
  {
    var parts := [IdText(song.id)] + song.Columns();
    IdTextPlain(song.id);
    assert forall k :: 0 <= k < |parts| ==> Newline !in parts[k];
    JoinWithout(parts, Comma, Newline);
  }

  /** Every record of a list that each decodes back to itself is kept, in
      order. */
  lemma {:induction false} KeptAllRows<T>(rows: seq<Option<T>>, records: seq<T>)
    requires |rows| == |records|
    requires forall i :: 0 <= i < |rows| ==> rows[i] == Some(records[i])
    ensures Kept(rows) == records
    decreases |rows|
  {
    if |rows| > 0 {
      KeptAllRows(rows[..|rows| - 1], records[..|records| - 1]);
    }
  }

  /** Lines without line breaks come back one for one as the data lines. */
  lemma DataLinesOfFile(header: string, lines: seq<string>)
    requires Newline !in header
    requires |lines| >= 1
    requires forall i :: 0 <= i < |lines| ==> Newline !in lines[i]
    ensures DataLines(header + [Newline] + Join(lines, Newline)) == lines
  {
    DataLinesAfterHeader(header, Join(lines, Newline));
    SplitJoin(lines, Newline);
  }

  /** Loading a written roster gives back the DJs, in order, whatever the
      header says. */
  lemma ParseDJsRoundTrip(header: string, djs: seq<DJ>)
    requires Newline !in header
    requires forall i :: 0 <= i < |djs| ==> Comma !in djs[i].name && Newline !in djs[i].name
    ensures ParseDJs(FileText(header, DJLine, djs)) == djs
  {
    if |djs| == 0 {
      EmptyFile(header, DJLine, djs);
    } else {
      var lines := Each(DJLine, djs);
      var rows := Each(DJRow, lines);
      assert DataLines(FileText(header, DJLine, djs)) == lines by {
        forall i | 0 <= i < |djs|
          ensures Newline !in lines[i]
        {
          DJLineSingle(djs[i]);
        }
        DataLinesOfFile(header, lines);
      }
      assert Kept(rows) == djs by {
        forall i | 0 <= i < |djs|
          ensures rows[i] == Some(djs[i])
        {
          DJRowRoundTrip(djs[i]);
        }
        KeptAllRows(rows, djs);
      }
    }
  }

  /** A file with no records is the header and one empty line, which
      neither loader keeps. */
  lemma EmptyFile<T>(header: string, render: T -> string, records: seq<T>)
    requires Newline !in header
    requires |records| == 0
    ensures ParseDJs(FileText(header, render, records)) == []
    ensures ParseSongs(FileText(header, render, records)) == map[]
  {
    assert FileText(header, render, records) == header + [Newline] + "";
    DataLinesAfterHeader(header, "");
    assert Split("", Newline) == [""];
    BlankLineContributesNothing("");
    assert Each(DJRow, [""]) == [None];
    var none: seq<Option<Song>> := [None];
    assert Each(SongRow, [""]) == none;
    assert none[..0] == [];
  }

  /** Songs whose text columns hold no quote, comma or line break.  */
  predicate PlainSongs(songs: seq<Song>) {
    forall i, k :: 0 <= i < |songs| && 0 <= k < 8 ==>
      var col := songs[i].Columns()[k];
      Quote !in col && Comma !in col && Newline !in col
  }

  /** The data lines of a written catalog decode, one for one, to the
      songs it was written from. */
  lemma SongFileRows(header: string, songs: seq<Song>)
    requires Newline !in header
    requires |songs| >= 1 && PlainSongs(songs)
    ensures var rows := Each(SongRow, DataLines(FileText(header, SongLine, songs)));
            |rows| == |songs| && forall i :: 0 <= i < |songs| ==> rows[i] == Some(songs[i])
  {
    var lines := Each(SongLine, songs);
    forall i | 0 <= i < |songs|
      ensures Newline !in lines[i]
      ensures SongRow(lines[i]) == Some(songs[i])
    {
      SongLineSingle(songs[i]);
      SongRowRoundTrip(songs[i]);
    }
    DataLinesOfFile(header, lines);
  }

  /** Loading a written catalog stores a song under exactly the ids that
      were written. */
  lemma ParseSongsRoundTripKeys(header: string, songs: seq<Song>, key: Option<int>)
    requires Newline !in header
    requires |songs| >= 1 && PlainSongs(songs)
    ensures key in ParseSongs(FileText(header, SongLine, songs)) <==>
              exists i :: 0 <= i < |songs| && songs[i].id == key
  {
    var rows := Each(SongRow, DataLines(FileText(header, SongLine, songs)));
    SongFileRows(header, songs);
    StoreSongsKeys(rows, key);
    if exists i :: 0 <= i < |songs| && songs[i].id == key {
      var i :| 0 <= i < |songs| && songs[i].id == key;
      assert StoresKey(rows[i], key);
    }
  }

  /** Loading a written catalog gives back, under each id, the last song
      written with that id. */
  lemma ParseSongsRoundTripValues(header: string, songs: seq<Song>, i: nat)
    requires Newline !in header
    requires |songs| >= 1 && PlainSongs(songs)
    requires i < |songs|
    requires forall j :: i < j < |songs| ==> songs[j].id != songs[i].id
    ensures songs[i].id in ParseSongs(FileText(header, SongLine, songs))
    ensures ParseSongs(FileText(header, SongLine, songs))[songs[i].id] == songs[i]
  {
    var rows := Each(SongRow, DataLines(FileText(header, SongLine, songs)));
    SongFileRows(header, songs);
    StoreSongsLastWriteWins(rows, i);
  }
}
