/**
  `loader/face_info.rs`: the faces of the font database that can show a character.
  A face's raw data, its `cmap` table and its `name` table enter as values; the
  database lookup and `ttf_parser` are not modelled. A `name` record carries what the
  parser would report about it: its name ID, whether its encoding is Unicode, its
  language, and its decoded text when it decodes.
*/
module FaceInfoLoader {
  import opened Wrappers
  import opened LoaderError
  import CMap

  /** Name ID 4 of the OpenType `name` table, the full font name. */
  const FullName: nat := 4

  datatype Language = EnglishUnitedStates | OtherLanguage

  datatype NameRecord = NameRecord(nameId: nat, isUnicode: bool, language: Language,
                                   decoded: Option<string>)

  /** The tables of a face that parsed (`RawFace::parse` succeeded). */
  datatype RawFace = RawFace(cmap: Table<CMap.Subtable>, names: Table<NameRecord>)

  datatype Source = File(path: string) | OtherSource

  /** A face of the font database; `raw` is None when `RawFace::parse` fails. */
  datatype DbFace = DbFace(id: nat, families: seq<string>, postScriptName: string, source: Source,
                           index: nat, raw: Option<RawFace>)

  datatype FaceInfo = FaceInfo(id: nat, family: string, name: string, path: string, index: nat, gid: nat)

  /** What `parse_if_contains` can do: return, or reach `unreachable!`. */
  datatype Outcome = Returned(result: Result<Option<FaceInfo>, Error>) | Panics

  /** The record the loop looks for: the full name, Unicode, American English. */
  predicate Wanted(r: NameRecord)
  {
    r.nameId == FullName && r.isUnicode && r.language == EnglishUnitedStates
  }

  /** The loop over the name records from index `i`: the first wanted record that
      decodes wins, and an unreadable record before it is an error. */
  function ScanNames(records: seq<Option<NameRecord>>, i: nat): Result<Option<string>, Error>
    requires i <= |records|
    decreases |records| - i
  {
    if i == |records| then Ok(None)
    else match records[i]
      case None => Err(BrokenNameTable)
      case Some(r) =>
        if Wanted(r) && r.decoded.Some? then Ok(Some(r.decoded.value)) else ScanNames(records, i + 1)
  }

  /** What `parse_full_name` returns. */
  function FullNameSpec(names: Table<NameRecord>): Result<Option<string>, Error>
  {
    match names
    case Missing => Err(MissingNameTable)
    case Broken => Err(BrokenNameTable)
    case Parsed(records) => ScanNames(records, 0)
  }

  /** `parse_full_name`. */
  method ParseFullName(names: Table<NameRecord>) returns (r: Result<Option<string>, Error>)
    ensures r == FullNameSpec(names)
  {
    if names.Missing? {
      return Err(MissingNameTable);
    }
    if names.Broken? {
      return Err(BrokenNameTable);
    }
    var records := names.records;
    for i := 0 to |records|
      invariant ScanNames(records, 0) == ScanNames(records, i)
    {
      var name := records[i];
      if name.None? {
        return Err(BrokenNameTable);
      }
      if Wanted(name.value) {
        if name.value.decoded.Some? {
          return Ok(Some(name.value.decoded.value));
        }
      }
    }
    return Ok(None);
  }

  /** A record that is read and is a wanted, decodable full name. */
  predicate Hit(x: Option<NameRecord>)
  {
    x.Some? && Wanted(x.value) && x.value.decoded.Some?
  }

  /** The scan finds the first hit, provided every record before it reads; it is an error
      exactly when an unreadable record comes before any hit; and it finds nothing
      exactly when every record reads and none is a hit. */
  lemma {:induction false} ScanNamesSpec(records: seq<Option<NameRecord>>, i: nat)
    requires i <= |records|
    ensures ScanNames(records, i).Ok? && ScanNames(records, i).value.Some? ==>
      exists k | i <= k < |records| ::
        Hit(records[k]) && ScanNames(records, i).value.value == records[k].value.decoded.value &&
        forall j | i <= j < k :: records[j].Some? && !Hit(records[j])
    ensures ScanNames(records, i).Err? <==>
      exists k | i <= k < |records| ::
        records[k].None? && forall j | i <= j < k :: records[j].Some? && !Hit(records[j])
    ensures ScanNames(records, i) == Ok(None) <==>
      forall j | i <= j < |records| :: records[j].Some? && !Hit(records[j])
    decreases |records| - i
  {
    if i < |records| {
      ScanNamesSpec(records, i + 1);
      if records[i].Some? && !Hit(records[i]) {
        if ScanNames(records, i).Err? {
          var k :| i + 1 <= k < |records| &&
            records[k].None? && forall j | i + 1 <= j < k :: records[j].Some? && !Hit(records[j]);
          assert forall j | i <= j < k :: records[j].Some? && !Hit(records[j]);
        }
        if ScanNames(records, i).Ok? && ScanNames(records, i).value.Some? {
          var k :| i + 1 <= k < |records| &&
            Hit(records[k]) && ScanNames(records, i).value.value == records[k].value.decoded.value &&
            forall j | i + 1 <= j < k :: records[j].Some? && !Hit(records[j]);
          assert forall j | i <= j < k :: records[j].Some? && !Hit(records[j]);
        }
      }
    }
  }

  /** `parse_if_contains(face, c)`, step by step: the raw face, the cmap and its glyph for
      `c` (no glyph: `Ok(None)`), the full name, the first family, the name fallback to
      the PostScript name, and the file path. */
  function ParseIfContains(face: DbFace, c: char): Outcome
  {
    match face.raw
    case None => Returned(Err(RawFontParseFailed))
    case Some(rf) =>
      match CMap.ParseSpec(rf.cmap)
      case Err(e) => Returned(Err(e))
      case Ok(subtables) =>
        match CMap.GlyphIndex(subtables, c)
        case None => Returned(Ok(None))
        case Some(gid) =>
          match FullNameSpec(rf.names)
          case Err(e) => Returned(Err(e))
          case Ok(fullName) =>
            if face.families == [] then Returned(Err(MissingFamilyName))
            else
              var name := if fullName.Some? then fullName.value else face.postScriptName;
              match face.source
              case OtherSource => Panics
              case File(path) =>
                Returned(Ok(Some(FaceInfo(face.id, face.families[0], name, path, face.index, gid))))
  }

  /** A face that cannot show `c` yields `Ok(None)` (once its raw data and cmap parse),
      whatever its name table holds, since that table is never read. */
  lemma NotContainedSkipsNames(face: DbFace, c: char, names: Table<NameRecord>)
    requires face.raw.Some? && CMap.ParseSpec(face.raw.value.cmap).Ok?
    requires CMap.GlyphIndex(CMap.ParseSpec(face.raw.value.cmap).value, c).None?
    ensures ParseIfContains(face, c) == Returned(Ok(None))
    ensures ParseIfContains(face.(raw := Some(face.raw.value.(names := names))), c) == Returned(Ok(None))
  {
  }

  /** A face found to contain `c` carries its first family, the glyph the cmap gives, and
      the decoded full name, or the PostScript name when the name table has none. */
  lemma FoundFields(face: DbFace, c: char)
    requires ParseIfContains(face, c).Returned? && ParseIfContains(face, c).result.Ok?
    requires ParseIfContains(face, c).result.value.Some?
    ensures var info := ParseIfContains(face, c).result.value.value;
      face.families != [] && info.family == face.families[0] &&
      face.raw.Some? && CMap.ParseSpec(face.raw.value.cmap).Ok? &&
      CMap.GlyphIndex(CMap.ParseSpec(face.raw.value.cmap).value, c) == Some(info.gid) &&
      FullNameSpec(face.raw.value.names).Ok? &&
      info.name == (match FullNameSpec(face.raw.value.names).value
                    case Some(n) => n case None => face.postScriptName) &&
      face.source == File(info.path) && info.id == face.id && info.index == face.index
  {
  }

  /** With no family listed, a face containing `c` is an error, not a skip. */
  lemma NoFamilyIsError(face: DbFace, c: char)
    requires face.families == [] && face.raw.Some?
    requires CMap.ParseSpec(face.raw.value.cmap).Ok?
    requires CMap.GlyphIndex(CMap.ParseSpec(face.raw.value.cmap).value, c).Some?
    requires FullNameSpec(face.raw.value.names).Ok?
    ensures ParseIfContains(face, c) == Returned(Err(MissingFamilyName))
  {
  }
}
