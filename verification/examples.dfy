/** Worked examples of `parseSongs` and `parseDJs`, stated on
    concrete lines. */
module Examples {
  import opened Wrappers
  import opened Text
  import opened Numbers
  import opened Fields
  import opened Types
  import opened DataParser
  import opened RoundTrip

  /** A quoted middle field keeps its commas: `id,"title",artist` has the
      three fields `id`, `title` and `artist`. */
  lemma QuotedMiddleField(id: string, title: string, artist: string)
    requires Quote !in id && Comma !in id
    requires Quote !in title
    requires Quote !in artist && Comma !in artist
    ensures SplitFields(id + [Comma, Quote] + title + [Quote, Comma] + artist) == [id, title, artist]
  {
    var quoted := [Quote] + title + [Quote];
    var rest := quoted + [Comma] + artist;
    assert id + [Comma, Quote] + title + [Quote, Comma] + artist == id + [Comma] + rest;
    PlainField(id);
    PlainField(artist);
    SplitFieldsQuoted(title);
    assert multiset(quoted)[Quote] == multiset(title)[Quote] + 2;
    SplitFieldsAtComma(quoted, artist);
    assert multiset(id)[Quote] == 0;
    SplitFieldsAtComma(id, rest);
  }

  /** A quoted title with a comma: `1,"Song, Title",Artist`. */
  lemma QuotedCommaExample()
    ensures SplitFields("1,\"Song, Title\",Artist") == ["1", "Song, Title", "Artist"]
  {
    QuotedCommaLine();
    QuotedMiddleField("1", "Song, Title", "Artist");
  }

  /** That line, spelt as its three parts. */
  lemma QuotedCommaLine()
    ensures "1,\"Song, Title\",Artist"
         == "1" + [Comma, Quote] + "Song, Title" + [Quote, Comma] + "Artist"
  {
    var line := "1" + [Comma, Quote] + "Song, Title" + [Quote, Comma] + "Artist";
    assert |line| == 22;
    assert forall i :: 0 <= i < 22 ==> line[i] == "1,\"Song, Title\",Artist"[i];
  }

  /** A field with neither quote nor comma is itself. */
  lemma PlainField(s: string)
    requires Quote !in s && Comma !in s
    ensures SplitFields(s) == [s]
  {
    SplitFieldsWithoutQuotes(s);
    SplitWithoutSeparator(s, Comma);
  }

  /** `Alice,1,,3,,10`: empty id columns are null. */
  lemma AliceExample()
    ensures DJRow("Alice,1,,3,,10")
         == Some(DJ("Alice", Id(Some(1)), Null, Id(Some(3)), Null, Id(Some(10))))
  {
    var alice := DJ("Alice", Id(Some(1)), Null, Id(Some(3)), Null, Id(Some(10)));
    assert DJLine(alice) == "Alice,1,,3,,10" by {
      AliceLine();
    }
    assert DJRow(DJLine(alice)) == Some(alice) by {
      DJRowRoundTrip(alice);
    }
  }

  /** The roster line of Alice, spelt out. */
  lemma AliceLine()
    ensures DJLine(DJ("Alice", Id(Some(1)), Null, Id(Some(3)), Null, Id(Some(10)))) == "Alice,1,,3,,10"
  {
    assert IdText(Some(1)) == "1";
    assert IdText(Some(3)) == "3";
    assert ShowNat(10) == ShowNat(1) + [DigitChar(0)];
    assert IdText(Some(10)) == "10";
    var parts := ["Alice", "1", "", "3", "", "10"];
    assert Join(parts[..2], Comma) == "Alice,1";
    assert parts[..3][..2] == parts[..2];
    assert Join(parts[..3], Comma) == "Alice,1,";
    assert parts[..4][..3] == parts[..3];
    assert Join(parts[..4], Comma) == "Alice,1,,3";
    assert parts[..5][..4] == parts[..4];
    assert Join(parts[..5], Comma) == "Alice,1,,3,";
    assert parts[..5] == parts[..|parts| - 1];
    assert Join(parts, Comma) == "Alice,1,,3,,10";
  }

  /** A nine-column catalog line whose first field is `42` gives the song
      with id 42 and the other eight columns in order. */
  lemma SongFortyTwoExample()
    ensures SongRow("42,t,a,ah,w,wj,c,i,s")
         == Some(Song(Some(42), "t", "a", "ah", "w", "wj", "c", "i", "s"))
  {
    var song := Song(Some(42), "t", "a", "ah", "w", "wj", "c", "i", "s");
    FortyTwoLine();
    assert forall k :: 0 <= k < 8 ==> Quote !in song.Columns()[k] && Comma !in song.Columns()[k];
    SongRowRoundTrip(song);
  }

  /** The catalog line of song 42, spelt out. */
  lemma FortyTwoLine()
    ensures SongLine(Song(Some(42), "t", "a", "ah", "w", "wj", "c", "i", "s"))
         == "42,t,a,ah,w,wj,c,i,s"
  {
    var song := Song(Some(42), "t", "a", "ah", "w", "wj", "c", "i", "s");
    assert ShowNat(42) == ShowNat(4) + [DigitChar(2)];
    assert IdText(Some(42)) == "42";
    var parts := ["42", "t", "a", "ah", "w", "wj", "c", "i", "s"];
    assert [IdText(song.id)] + song.Columns() == parts;
    assert Join(parts[..2], Comma) == "42,t";
    assert parts[..3][..2] == parts[..2];
    assert Join(parts[..3], Comma) == "42,t,a";
    assert parts[..4][..3] == parts[..3];
    assert Join(parts[..4], Comma) == "42,t,a,ah";
    assert parts[..5][..4] == parts[..4];
    assert Join(parts[..5], Comma) == "42,t,a,ah,w";
    assert parts[..6][..5] == parts[..5];
    assert Join(parts[..6], Comma) == "42,t,a,ah,w,wj";
    assert parts[..7][..6] == parts[..6];
    assert Join(parts[..7], Comma) == "42,t,a,ah,w,wj,c";
    assert parts[..8][..7] == parts[..7];
    assert Join(parts[..8], Comma) == "42,t,a,ah,w,wj,c,i";
    assert parts[..8] == parts[..|parts| - 1];
    assert Join(parts, Comma) == "42,t,a,ah,w,wj,c,i,s";
  }

  /** Two catalog lines with id 7: the catalog has the one key 7, holding
      the later line's song. */
  lemma DuplicateIdExample(header: string, first: Song, second: Song)
    requires Newline !in header
    requires first.id == Some(7) && second.id == Some(7)
    requires PlainSongs([first, second])
    ensures ParseSongs(FileText(header, SongLine, [first, second])).Keys == {Some(7)}
    ensures ParseSongs(FileText(header, SongLine, [first, second]))[Some(7)] == second
  {
    var songs := [first, second];
    var catalog := ParseSongs(FileText(header, SongLine, songs));
    forall key
      ensures key in catalog <==> key == Some(7)
    {
      ParseSongsRoundTripKeys(header, songs, key);
      if key == Some(7) {
        assert songs[0].id == key;
      }
    }
    ParseSongsRoundTripValues(header, songs, 1);
  }

  /** `parseInt` without a radix honours a hexadecimal marker: `0x1A` is
      26, and `0xg` is `NaN`, not 0. */
  lemma HexExamples()
    ensures ParseInt("0x1A") == Some(26)
    ensures ParseInt("0xg") == None
  {
    ParseIntHex("0x1A", "1A", "");
    assert HexValue("1A") == 16 * HexValue("1") + 10 by {
      assert "1A"[..1] == "1";
    }
    assert HexValue("1") == 1 by {
      assert "1"[..0] == "";
    }
    ParseIntHex("0xg", "", "g");
  }
}
