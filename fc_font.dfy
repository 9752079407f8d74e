/**
  `fc::Font`, the older wrapper over a fontconfig pattern: family and full names by
  language, read with the same loop as `fc::FontInfo` but stored as read, with no
  value map.
*/
module FcFont {
  import opened Wrappers
  import ByLang
  import FcPattern
  import FcFontInfo

  /** `family_names`. */
  method FamilyNames(p: FcPattern.Pattern) returns (r: Result<ByLang.LangMap<string>, ()>)
    ensures r == FcPattern.ByLangSpec(p, FcFontInfo.FcFamily, FcFontInfo.FcFamilyLang, None)
  {
    r := FcPattern.GetStringByLangProperty(p, FcFontInfo.FcFamily, FcFontInfo.FcFamilyLang, None);
  }

  /** `fullnames`. */
  method FullNames(p: FcPattern.Pattern) returns (r: Result<ByLang.LangMap<string>, ()>)
    ensures r == FcPattern.ByLangSpec(p, FcFontInfo.FcFullname, FcFontInfo.FcFullnameLang, None)
  {
    r := FcPattern.GetStringByLangProperty(p, FcFontInfo.FcFullname, FcFontInfo.FcFullnameLang, None);
  }

  /** Without a value map the by-lang read fails exactly on a count mismatch, and on
      success each language holds the values read for it, unchanged and in order. */
  lemma ByLangAsRead(p: FcPattern.Pattern, valueKey: string, langKey: string, lang: string)
    ensures FcPattern.ByLangSpec(p, valueKey, langKey, None).Err? <==>
      |FcPattern.Strings(p, valueKey)| != |FcPattern.Strings(p, langKey)|
    ensures FcPattern.ByLangSpec(p, valueKey, langKey, None).Ok? ==>
      var langs := FcPattern.Strings(p, langKey);
      var values := FcPattern.Strings(p, valueKey);
      (lang in FcPattern.ByLangSpec(p, valueKey, langKey, None).value.entries <==> lang in langs) &&
      (lang in langs ==>
        FcPattern.ByLangSpec(p, valueKey, langKey, None).value.entries[lang] ==
        ByLang.ValuesFor(langs, values, lang)) &&
      ByLang.Total(FcPattern.ByLangSpec(p, valueKey, langKey, None).value) == |values|
  {
    var langs := FcPattern.Strings(p, langKey);
    var values := FcPattern.Strings(p, valueKey);
    if |values| == |langs| {
      assert FcPattern.MapValues(values, None) == values;
      ByLang.GroupEntries(langs, values, lang);
      ByLang.GroupTotal(langs, values);
    }
  }
}
