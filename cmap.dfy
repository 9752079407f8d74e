/**
  `loader/cmap.rs`: the character-to-glyph tables of a face. Only the subtables that
  map Unicode code points are kept, in table order, and a character's glyph is the
  first one those subtables give. The table parser is not modelled: a raw face's
  `cmap` table arrives as `LoaderError.Table` of subtables, each with the code points it
  maps.
*/
module CMap {
  import opened Wrappers
  import opened LoaderError

  /** A cmap subtable: whether its encoding is Unicode, and its code point to glyph id map. */
  datatype Subtable = Subtable(isUnicode: bool, glyphs: map<nat, nat>)

  /** The Unicode subtables of the records, in order; Err at the first unreadable one. */
  function UnicodeSubtables(records: seq<Option<Subtable>>): (r: Result<seq<Subtable>, Error>)
    ensures r.Err? ==> r.error == BrokenCmapTable
    decreases |records|
  {
    if records == [] then Ok([])
    else
      var n := |records| - 1;
      match UnicodeSubtables(records[..n])
      case Err(e) => Err(e)
      case Ok(kept) =>
        match records[n]
        case None => Err(BrokenCmapTable)
        case Some(s) => Ok(if s.isUnicode then kept + [s] else kept)
  }

  /** What `CMapTable::parse` returns. */
  function ParseSpec(cmap: Table<Subtable>): Result<seq<Subtable>, Error>
  {
    match cmap
    case Missing => Err(MissingCmapTable)
    case Broken => Err(BrokenCmapTable)
    case Parsed(records) => UnicodeSubtables(records)
  }

  /** `CMapTable::parse`: the missing and broken table errors, then the loop over the
      subtables keeping the Unicode ones. */
  method Parse(cmap: Table<Subtable>) returns (r: Result<seq<Subtable>, Error>)
    ensures r == ParseSpec(cmap)
  {
    if cmap.Missing? {
      return Err(MissingCmapTable);
    }
    if cmap.Broken? {
      return Err(BrokenCmapTable);
    }
    var records := cmap.records;
    var subtables: seq<Subtable> := [];
    for i := 0 to |records|
      invariant UnicodeSubtables(records[..i]) == Ok(subtables)
    {
      assert records[..i + 1][..i] == records[..i];
      match records[i]
      case None =>
        ErrPrefix(records, i + 1);
        return Err(BrokenCmapTable);
      case Some(s) =>
        if s.isUnicode {
          subtables := subtables + [s];
        }
    }
    assert records[..|records|] == records;
    return Ok(subtables);
  }

  /** The Unicode subtables among the records that read, in order. */
  function KeepUnicode(records: seq<Option<Subtable>>): seq<Subtable>
  {
    if records == [] then []
    else
      (if records[0].Some? && records[0].value.isUnicode then [records[0].value] else []) +
      KeepUnicode(records[1..])
  }

  lemma {:induction false} KeepUnicodeAppend(records: seq<Option<Subtable>>, x: Option<Subtable>)
    ensures KeepUnicode(records + [x]) ==
      KeepUnicode(records) + (if x.Some? && x.value.isUnicode then [x.value] else [])
  {
    if records != [] {
      assert (records + [x])[1..] == records[1..] + [x];
      KeepUnicodeAppend(records[1..], x);
    } else {
      assert [x][1..] == [];
    }
  }

  /** Once a prefix of the records fails, the whole loop fails. */
  lemma {:induction false} ErrPrefix(records: seq<Option<Subtable>>, i: nat)
    requires i <= |records| && UnicodeSubtables(records[..i]).Err?
    ensures UnicodeSubtables(records).Err?
    decreases |records| - i
  {
    if i < |records| {
      assert records[..i + 1][..i] == records[..i];
      ErrPrefix(records, i + 1);
    } else {
      assert records[..i] == records;
    }
  }

  /** `parse` fails with the broken-table error exactly when some subtable cannot be
      read; otherwise it keeps exactly the Unicode subtables, in order. */
  lemma {:induction false} UnicodeSubtablesSpec(records: seq<Option<Subtable>>)
    ensures UnicodeSubtables(records).Err? <==> exists i | 0 <= i < |records| :: records[i].None?
    ensures UnicodeSubtables(records).Ok? ==> UnicodeSubtables(records).value == KeepUnicode(records)
    decreases |records|
  {
    if records != [] {
      var n := |records| - 1;
      UnicodeSubtablesSpec(records[..n]);
      assert forall i | 0 <= i < n :: records[..n][i] == records[i];
      assert records == records[..n] + [records[n]];
      KeepUnicodeAppend(records[..n], records[n]);
    }
  }

  /** `glyph_index`: the first glyph any kept subtable maps `c` to. */
  function GlyphIndex(subtables: seq<Subtable>, c: char): (g: Option<nat>)
    decreases |subtables|
  {
    if subtables == [] then None
    else if c as nat in subtables[0].glyphs then Some(subtables[0].glyphs[c as nat])
    else GlyphIndex(subtables[1..], c)
  }

  /** No glyph exactly when no subtable maps `c`; a glyph comes from the first subtable
      that maps `c`. */
  lemma {:induction false} GlyphIndexIsFirstHit(subtables: seq<Subtable>, c: char)
    ensures GlyphIndex(subtables, c).None? <==>
      forall i | 0 <= i < |subtables| :: c as nat !in subtables[i].glyphs
    ensures GlyphIndex(subtables, c).Some? ==>
      exists i | 0 <= i < |subtables| ::
        c as nat in subtables[i].glyphs && GlyphIndex(subtables, c).value == subtables[i].glyphs[c as nat] &&
        forall j | 0 <= j < i :: c as nat !in subtables[j].glyphs
    decreases |subtables|
  {
    if subtables != [] && c as nat !in subtables[0].glyphs {
      GlyphIndexIsFirstHit(subtables[1..], c);
      assert forall i | 1 <= i < |subtables| :: subtables[i] == subtables[1..][i - 1];
      if GlyphIndex(subtables, c).Some? {
        var i :| 0 <= i < |subtables[1..]| && c as nat in subtables[1..][i].glyphs &&
          GlyphIndex(subtables, c).value == subtables[1..][i].glyphs[c as nat] &&
          forall j | 0 <= j < i :: c as nat !in subtables[1..][j].glyphs;
        assert forall j | 0 <= j < i + 1 :: c as nat !in subtables[j].glyphs by {
          forall j | 0 <= j < i + 1 ensures c as nat !in subtables[j].glyphs {
            if j > 0 {
              assert subtables[j] == subtables[1..][j - 1];
            }
          }
        }
      }
    }
  }

  /** Non-Unicode subtables are never consulted: replacing one by any other non-Unicode
      subtable changes neither what `parse` keeps nor any glyph lookup. */
  lemma {:induction false} NonUnicodeIgnored(records: seq<Option<Subtable>>, i: nat, s: Subtable)
    requires i < |records| && records[i].Some? && !records[i].value.isUnicode && !s.isUnicode
    ensures UnicodeSubtables(records[i := Some(s)]) == UnicodeSubtables(records)
    decreases |records|
  {
    var n := |records| - 1;
    var r2 := records[i := Some(s)];
    if i < n {
      assert r2[..n] == records[..n][i := Some(s)];
      NonUnicodeIgnored(records[..n], i, s);
    } else {
      assert r2[..n] == records[..n];
    }
  }
}
