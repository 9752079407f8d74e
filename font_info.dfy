/**
  `font_info.rs`, the revision of the catalogue built on `fc::Font`: a `FontInfo` with
  family and full names by language, ordered shortlex by its default full name, and a
  `Family` collecting them in a binary heap (modelled by its contents). The display
  width `UnicodeWidthStr::width` is a foreign call and enters as a parameter.
*/
module FontInfoCatalogue {
  import opened Wrappers
  import ByLang
  import Text
  import Utf8
  import FcPattern
  import FcFontInfo
  import FcFont

  datatype FontInfo = FontInfo(familyNames: ByLang.LangMap<string>, fullnames: ByLang.LangMap<string>)

  /** A font whose default full name exists, so that `eq`/`cmp` do not panic. */
  predicate Comparable(f: FontInfo)
  {
    ByLang.HasDefault(f.fullnames)
  }

  /** Shortlex on `str`: the byte length first, then the lexicographic order. */
  function Shortlex(a: string, b: string): Text.Ordering
  {
    if Utf8.Len(a) < Utf8.Len(b) then Text.Less
    else if Utf8.Len(b) < Utf8.Len(a) then Text.Greater
    else Text.Cmp(a, b)
  }

  /** `PartialEq for FontInfo`: the default full names are equal. */
  predicate Eq(a: FontInfo, b: FontInfo)
    requires Comparable(a) && Comparable(b)
  {
    ByLang.GetDefault(a.fullnames) == ByLang.GetDefault(b.fullnames)
  }

  /** `Ord for FontInfo`: shortlex on the default full names. */
  function Cmp(a: FontInfo, b: FontInfo): Text.Ordering
    requires Comparable(a) && Comparable(b)
  {
    Shortlex(ByLang.GetDefault(a.fullnames), ByLang.GetDefault(b.fullnames))
  }

  /** Shortlex answers Equal exactly on equal strings; a shorter string (in bytes) comes
      first whatever its characters; it is antisymmetric and transitive. */
  lemma ShortlexIsTotalOrder(a: string, b: string, c: string)
    ensures Shortlex(a, b) == Text.Equal <==> a == b
    ensures Utf8.Len(a) < Utf8.Len(b) ==> Shortlex(a, b) == Text.Less
    ensures Shortlex(a, b) == Text.Less <==> Shortlex(b, a) == Text.Greater
    ensures Shortlex(a, b) != Text.Greater && Shortlex(b, c) != Text.Greater ==>
      Shortlex(a, c) != Text.Greater
  {
    Text.CmpEqual(a, b);
    Text.CmpFlip(a, b);
    if Shortlex(a, b) != Text.Greater && Shortlex(b, c) != Text.Greater &&
       Utf8.Len(a) == Utf8.Len(b) == Utf8.Len(c) {
      Text.LeTransitive(a, b, c);
    }
  }

  /** `eq` holds exactly when `cmp` answers Equal, as `Ord` requires; `cmp` is a total
      order that puts shorter default full names first. */
  lemma EqIffCmpEqual(a: FontInfo, b: FontInfo, c: FontInfo)
    requires Comparable(a) && Comparable(b) && Comparable(c)
    ensures Eq(a, b) <==> Cmp(a, b) == Text.Equal
    ensures Utf8.Len(ByLang.GetDefault(a.fullnames)) < Utf8.Len(ByLang.GetDefault(b.fullnames)) ==>
      Cmp(a, b) == Text.Less
    ensures Cmp(a, b) == Text.Less <==> Cmp(b, a) == Text.Greater
    ensures Cmp(a, b) != Text.Greater && Cmp(b, c) != Text.Greater ==> Cmp(a, c) != Text.Greater
  {
    ShortlexIsTotalOrder(ByLang.GetDefault(a.fullnames), ByLang.GetDefault(b.fullnames),
      ByLang.GetDefault(c.fullnames));
  }

  class Family {
    const name: ByLang.LangMap<string>
    var fonts: multiset<FontInfo>
    const defaultNameWidth: nat

    /** `Family::new`: the width is the display width of the default name; no fonts. */
    constructor (name: ByLang.LangMap<string>, width: string -> nat)
      requires ByLang.HasDefault(name)
      ensures this.name == name && fonts == multiset{}
      ensures defaultNameWidth == width(ByLang.GetDefault(name))
      ensures StylesCount() == 0
    {
      this.name := name;
      fonts := multiset{};
      defaultNameWidth := width(ByLang.GetDefault(name));
    }

    /** `styles_count`: the number of fonts in the heap. */
    function StylesCount(): nat
      reads this
    {
      |fonts|
    }

    /** `add_font`: pushes one font. */
    method AddFont(font: FontInfo)
      modifies this
      ensures fonts == old(fonts) + multiset{font}
      ensures StylesCount() == old(StylesCount()) + 1
    {
      fonts := fonts + multiset{font};
    }
  }

  /** `try_from(fc::Font)` on its two reads: both must succeed, and neither map may be
      empty. */
  function Assemble(families: Result<ByLang.LangMap<string>, ()>,
                    fulls: Result<ByLang.LangMap<string>, ()>): Result<FontInfo, ()>
  {
    if families.Err? || fulls.Err? then Err(())
    else if |families.value.entries| == 0 || |fulls.value.entries| == 0 then Err(())
    else Ok(FontInfo(families.value, fulls.value))
  }

  function TryFromSpec(p: FcPattern.Pattern): Result<FontInfo, ()>
  {
    Assemble(FcPattern.ByLangSpec(p, FcFontInfo.FcFamily, FcFontInfo.FcFamilyLang, None),
      FcPattern.ByLangSpec(p, FcFontInfo.FcFullname, FcFontInfo.FcFullnameLang, None))
  }

  /** `TryFrom<Font> for FontInfo`. */
  method TryFrom(p: FcPattern.Pattern) returns (r: Result<FontInfo, ()>)
    ensures r == TryFromSpec(p)
  {
    var families := FcFont.FamilyNames(p);
    if families.Err? {
      return Err(());
    }
    var fulls := FcFont.FullNames(p);
    if fulls.Err? {
      return Err(());
    }
    var f := FontInfo(families.value, fulls.value);
    if |f.familyNames.entries| == 0 || |f.fullnames.entries| == 0 {
      return Err(());
    }
    return Ok(f);
  }

  /** The conversion fails exactly when a read fails or reads no name at all; what it
      returns has default family and full names, so it can be ordered and filed. */
  lemma TryFromOk(p: FcPattern.Pattern)
    ensures TryFromSpec(p).Ok? <==>
      (|FcPattern.Strings(p, FcFontInfo.FcFamily)| == |FcPattern.Strings(p, FcFontInfo.FcFamilyLang)| &&
       |FcPattern.Strings(p, FcFontInfo.FcFullname)| == |FcPattern.Strings(p, FcFontInfo.FcFullnameLang)| &&
       FcPattern.Strings(p, FcFontInfo.FcFamily) != [] && FcPattern.Strings(p, FcFontInfo.FcFullname) != [])
    ensures TryFromSpec(p).Ok? ==>
      Comparable(TryFromSpec(p).value) && ByLang.HasDefault(TryFromSpec(p).value.familyNames)
  {
    var families := FcPattern.ByLangSpec(p, FcFontInfo.FcFamily, FcFontInfo.FcFamilyLang, None);
    var fulls := FcPattern.ByLangSpec(p, FcFontInfo.FcFullname, FcFontInfo.FcFullnameLang, None);
    assert TryFromSpec(p) == Assemble(families, fulls);
    if families.Ok? {
      FcPattern.ByLangHasDefault(p, FcFontInfo.FcFamily, FcFontInfo.FcFamilyLang, None);
    }
    if fulls.Ok? {
      FcPattern.ByLangHasDefault(p, FcFontInfo.FcFullname, FcFontInfo.FcFullnameLang, None);
    }
  }
}
