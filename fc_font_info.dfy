/**
  `fc::FontInfo`, a font of a fontconfig font set: its family and full names per
  language (with fontconfig's leading dots removed), its file path and its face index.
*/
module FcFontInfo {
  import opened Wrappers
  import ByLang
  import FcPattern

  /** The fontconfig property names (`FC_FAMILY`, ... in `fc/consts.rs`). */
  const FcFamily: string := "family"
  const FcFullname: string := "fullname"
  const FcFamilyLang: string := "familylang"
  const FcFullnameLang: string := "fullnamelang"
  const FcFile: string := "file"
  const FcIndex: string := "index"

  /** `trim_start_matches('.')`. */
  function RemovePrefixDot(name: string): (r: string)
    ensures |r| <= |name| && r == name[|name| - |r|..]
    ensures r == [] || r[0] != '.'
    ensures forall i | 0 <= i < |name| - |r| :: name[i] == '.'
    decreases |name|
  {
    if name != [] && name[0] == '.' then RemovePrefixDot(name[1..]) else name
  }

  /** Exactly the leading run of dots goes: on a run of dots followed by a string that
      does not start with one, the result is that string. */
  lemma {:induction false} RemovePrefixDotExact(dots: string, rest: string)
    requires forall i | 0 <= i < |dots| :: dots[i] == '.'
    requires rest == [] || rest[0] != '.'
    ensures RemovePrefixDot(dots + rest) == rest
    decreases |dots|
  {
    if dots != [] {
      assert (dots + rest)[1..] == dots[1..] + rest;
      RemovePrefixDotExact(dots[1..], rest);
    } else {
      assert dots + rest == rest;
    }
  }

  lemma RemovePrefixDotIdempotent(name: string)
    ensures RemovePrefixDot(RemovePrefixDot(name)) == RemovePrefixDot(name)
  {
    var r := RemovePrefixDot(name);
    RemovePrefixDotExact([], r);
    assert [] + r == r;
  }

  /** `family_names`: family names by language, leading dots removed. */
  method FamilyNames(p: FcPattern.Pattern) returns (r: Result<ByLang.LangMap<string>, ()>)
    ensures r == FcPattern.ByLangSpec(p, FcFamily, FcFamilyLang, Some(RemovePrefixDot))
  {
    r := FcPattern.GetStringByLangProperty(p, FcFamily, FcFamilyLang, Some(RemovePrefixDot));
  }

  /** `fullnames`: full names by language, leading dots removed. */
  method FullNames(p: FcPattern.Pattern) returns (r: Result<ByLang.LangMap<string>, ()>)
    ensures r == FcPattern.ByLangSpec(p, FcFullname, FcFullnameLang, Some(RemovePrefixDot))
  {
    r := FcPattern.GetStringByLangProperty(p, FcFullname, FcFullnameLang, Some(RemovePrefixDot));
  }

  /** Every name stored by `family_names`/`fullnames` starts with something other than a
      dot, and is a value read for the value key with its dots removed. */
  lemma StoredNamesHaveNoPrefixDot(p: FcPattern.Pattern, valueKey: string, langKey: string,
                                   lang: string, v: string)
    requires FcPattern.ByLangSpec(p, valueKey, langKey, Some(RemovePrefixDot)).Ok?
    requires lang in FcPattern.ByLangSpec(p, valueKey, langKey, Some(RemovePrefixDot)).value.entries
    requires v in FcPattern.ByLangSpec(p, valueKey, langKey, Some(RemovePrefixDot)).value.entries[lang]
    ensures v == [] || v[0] != '.'
    ensures exists raw | raw in FcPattern.Strings(p, valueKey) :: v == RemovePrefixDot(raw)
  {
    var values := FcPattern.Strings(p, valueKey);
    var langs := FcPattern.Strings(p, langKey);
    var mapped := FcPattern.MapValues(values, Some(RemovePrefixDot));
    ByLang.GroupEntries(langs, mapped, lang);
    ByLang.ValuesForIn(langs, mapped, lang, v);
    var i :| 0 <= i < |langs| && langs[i] == lang && mapped[i] == v;
    assert v == RemovePrefixDot(values[i]);
  }

  /** `path`: the last file name read, Err when there is none. */
  method Path(p: FcPattern.Pattern) returns (r: Result<string, ()>)
    ensures r.Ok? <==> FcPattern.Strings(p, FcFile) != []
    ensures r.Ok? ==> r.value == FcPattern.Strings(p, FcFile)[|FcPattern.Strings(p, FcFile)| - 1]
  {
    var files := FcPattern.GetStringProperty(p, FcFile);
    r := FcPattern.Last(files);
  }

  /** `index`: the last face index read, Err when there is none. */
  method Index(p: FcPattern.Pattern) returns (r: Result<FcPattern.c_int, ()>)
    ensures r.Ok? <==> FcPattern.Integers(p, FcIndex) != []
    ensures r.Ok? ==> r.value == FcPattern.Integers(p, FcIndex)[|FcPattern.Integers(p, FcIndex)| - 1]
  {
    var indices := FcPattern.GetIntProperty(p, FcIndex);
    r := FcPattern.Last(indices);
  }
}
