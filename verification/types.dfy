/** The record shapes of app/src/lib/types.ts.  A JavaScript `number`
    produced by `parseInt` is an `Option<int>` (`None` is `NaN`). */
module Types {
  import opened Wrappers

  /** One catalog entry (`Song`, types.ts lines 1-11).  The source's Korean
      member names are rendered in English: title is 곡명, artist is 아티스트,
      artistHangul is 아티스트_한글, work is 작품, workJapanese is 작품_일본어,
      credit is 크레딧, info is 정보. */
  datatype Song = Song(
    id: Option<int>,
    title: string,
    artist: string,
    artistHangul: string,
    work: string,
    workJapanese: string,
    credit: string,
    info: string,
    spotify: string)
  {
    /** The eight text members, in the column order of the catalog. */
    function Columns(): (cols: seq<string>)
      ensures |cols| == 8
    {
      [title, artist, artistHangul, work, workJapanese, credit, info, spotify]
    }
  }

  /** A `number | null` member: `null`, or the result of `parseInt`, which
      may itself be `NaN`. */
  datatype NullableId = Null | Id(value: Option<int>)

  /** One roster entry (`DJ`, types.ts lines 13-20): a name, four round
      song ids and the id of the overall pick. */
  datatype DJ = DJ(
    name: string,
    id1: NullableId,
    id2: NullableId,
    id3: NullableId,
    id4: NullableId,
    all: NullableId)
  {
    /** The five id members, in the column order of the roster. */
    function Ids(): (ids: seq<NullableId>)
      ensures |ids| == 5
    {
      [id1, id2, id3, id4, all]
    }
  }
}
