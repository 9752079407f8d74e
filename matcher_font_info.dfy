/**
  `font::matcher::fc::FontInfo` and its conversion into the flat `Font` record of that
  revision (one family name, one full name, path, index). Its property reads,
  `remove_prefix_dot`, `family_names`, `fullnames`, `path` and `index` are the same
  code as in `fc::FontInfo` and are modelled by `FcFontInfo`; its `GetValueByLang`
  is `ByLang`.
*/
module MatcherFontInfo {
  import opened Wrappers
  import ByLang
  import FcPattern
  import FcFontInfo

  datatype Font = Font(familyName: string, fullname: string, path: string, index: nat)

  /** `try_from` either converts, returns `Err(())`, or panics: `get_default` unwraps
      the first entry of a name map that may be empty. */
  datatype Conversion = Converted(font: Font) | Rejected | Panics

  /** `i as usize` on a 64-bit target: a negative `c_int` wraps around. */
  function AsUsize(i: FcPattern.c_int): (u: nat)
    ensures 0 <= i ==> u == i as int
    ensures i < 0 ==> u == i as int + 0x1_0000_0000_0000_0000
  {
    if i >= 0 then i as int else i as int + 0x1_0000_0000_0000_0000
  }

  function FamilyNamesOf(p: FcPattern.Pattern): Result<ByLang.LangMap<string>, ()>
  {
    FcPattern.ByLangSpec(p, FcFontInfo.FcFamily, FcFontInfo.FcFamilyLang, Some(FcFontInfo.RemovePrefixDot))
  }

  function FullNamesOf(p: FcPattern.Pattern): Result<ByLang.LangMap<string>, ()>
  {
    FcPattern.ByLangSpec(p, FcFontInfo.FcFullname, FcFontInfo.FcFullnameLang, Some(FcFontInfo.RemovePrefixDot))
  }

  /** The fields of `try_from` from the four reads, evaluated in source order: each `?`
      returns early, and each `get_default` right after its read may panic. */
  function Assemble(families: Result<ByLang.LangMap<string>, ()>, fulls: Result<ByLang.LangMap<string>, ()>,
                    path: Result<string, ()>, index: Result<FcPattern.c_int, ()>): Conversion
  {
    if families.Err? then Rejected
    else if !ByLang.HasDefault(families.value) then Panics
    else if fulls.Err? then Rejected
    else if !ByLang.HasDefault(fulls.value) then Panics
    else if path.Err? || index.Err? then Rejected
    else
      var f := Font(ByLang.GetDefault(families.value), ByLang.GetDefault(fulls.value), path.value,
                    AsUsize(index.value));
      if f.familyName == [] || f.fullname == [] then Rejected else Converted(f)
  }

  function TryFromSpec(p: FcPattern.Pattern): Conversion
  {
    Assemble(FamilyNamesOf(p), FullNamesOf(p), FcPattern.Last(FcPattern.Strings(p, FcFontInfo.FcFile)),
      FcPattern.Last(FcPattern.Integers(p, FcFontInfo.FcIndex)))
  }

  /** `TryFrom<FontInfo> for Font`. */
  method TryFrom(p: FcPattern.Pattern) returns (r: Conversion)
    ensures r == TryFromSpec(p)
  {
    var families := FcFontInfo.FamilyNames(p);
    if families.Err? {
      return Rejected;
    }
    if !ByLang.HasDefault(families.value) {
      return Panics;
    }
    var familyName := ByLang.GetDefault(families.value);
    var fulls := FcFontInfo.FullNames(p);
    if fulls.Err? {
      return Rejected;
    }
    if !ByLang.HasDefault(fulls.value) {
      return Panics;
    }
    var fullname := ByLang.GetDefault(fulls.value);
    var path := FcFontInfo.Path(p);
    if path.Err? {
      return Rejected;
    }
    var index := FcFontInfo.Index(p);
    if index.Err? {
      return Rejected;
    }
    var f := Font(familyName, fullname, path.value, AsUsize(index.value));
    if f.familyName == [] || f.fullname == [] {
      return Rejected;
    }
    return Converted(f);
  }

  /** `Assemble` panics exactly when a name map read without error has no default. */
  lemma AssemblePanics(families: Result<ByLang.LangMap<string>, ()>, fulls: Result<ByLang.LangMap<string>, ()>,
                       path: Result<string, ()>, index: Result<FcPattern.c_int, ()>)
    ensures Assemble(families, fulls, path, index).Panics? <==>
      (families.Ok? && !ByLang.HasDefault(families.value)) ||
      (families.Ok? && ByLang.HasDefault(families.value) && fulls.Ok? && !ByLang.HasDefault(fulls.value))
  {
  }

  /** Short of a panic, the conversion is rejected exactly when one of the four reads
      fails or a default name is the empty string. */
  lemma AssembleRejected(families: Result<ByLang.LangMap<string>, ()>, fulls: Result<ByLang.LangMap<string>, ()>,
                         path: Result<string, ()>, index: Result<FcPattern.c_int, ()>)
    ensures Assemble(families, fulls, path, index).Rejected? <==>
      families.Err? ||
      (ByLang.HasDefault(families.value) &&
       (fulls.Err? ||
        (ByLang.HasDefault(fulls.value) &&
         (path.Err? || index.Err? ||
          ByLang.GetDefault(families.value) == [] || ByLang.GetDefault(fulls.value) == []))))
  {
  }

  /** The conversion panics exactly when a name read succeeds with no names at all
      (zero values and zero languages) before anything else failed. */
  lemma PanicsWhenNoNames(p: FcPattern.Pattern)
    ensures TryFromSpec(p).Panics? <==>
      (FamilyNamesOf(p).Ok? && FcPattern.Strings(p, FcFontInfo.FcFamily) == []) ||
      (FamilyNamesOf(p).Ok? && FcPattern.Strings(p, FcFontInfo.FcFamily) != [] &&
       FullNamesOf(p).Ok? && FcPattern.Strings(p, FcFontInfo.FcFullname) == [])
  {
    var families := FamilyNamesOf(p);
    var fulls := FullNamesOf(p);
    AssemblePanics(families, fulls, FcPattern.Last(FcPattern.Strings(p, FcFontInfo.FcFile)),
      FcPattern.Last(FcPattern.Integers(p, FcFontInfo.FcIndex)));
    if families.Ok? {
      FcPattern.ByLangHasDefault(p, FcFontInfo.FcFamily, FcFontInfo.FcFamilyLang, Some(FcFontInfo.RemovePrefixDot));
    }
    if fulls.Ok? {
      FcPattern.ByLangHasDefault(p, FcFontInfo.FcFullname, FcFontInfo.FcFullnameLang, Some(FcFontInfo.RemovePrefixDot));
    }
  }

  /** A converted font carries the default family and full names (non-empty, without a
      leading dot), the last path read and the last index read. */
  lemma ConvertedFields(p: FcPattern.Pattern)
    requires TryFromSpec(p).Converted?
    ensures var f := TryFromSpec(p).font;
      FamilyNamesOf(p).Ok? && ByLang.HasDefault(FamilyNamesOf(p).value) &&
      f.familyName == ByLang.GetDefault(FamilyNamesOf(p).value) &&
      FullNamesOf(p).Ok? && ByLang.HasDefault(FullNamesOf(p).value) &&
      f.fullname == ByLang.GetDefault(FullNamesOf(p).value) &&
      f.familyName != [] && f.familyName[0] != '.' &&
      f.fullname != [] && f.fullname[0] != '.' &&
      FcPattern.Strings(p, FcFontInfo.FcFile) != [] &&
      f.path == FcPattern.Strings(p, FcFontInfo.FcFile)[|FcPattern.Strings(p, FcFontInfo.FcFile)| - 1] &&
      FcPattern.Integers(p, FcFontInfo.FcIndex) != [] &&
      f.index == AsUsize(FcPattern.Integers(p, FcFontInfo.FcIndex)[|FcPattern.Integers(p, FcFontInfo.FcIndex)| - 1])
  {
    var families := FamilyNamesOf(p).value;
    var fulls := FullNamesOf(p).value;
    ByLang.GetDefaultIsStored(families);
    ByLang.GetDefaultIsStored(fulls);
    var k1 :| k1 in families.entries && ByLang.GetDefault(families) == families.entries[k1][0];
    FcFontInfo.StoredNamesHaveNoPrefixDot(p, FcFontInfo.FcFamily, FcFontInfo.FcFamilyLang, k1,
      ByLang.GetDefault(families));
    var k2 :| k2 in fulls.entries && ByLang.GetDefault(fulls) == fulls.entries[k2][0];
    FcFontInfo.StoredNamesHaveNoPrefixDot(p, FcFontInfo.FcFullname, FcFontInfo.FcFullnameLang, k2,
      ByLang.GetDefault(fulls));
  }
}
