/**
  `font/from_fc.rs`: converting fontconfig fonts into catalogue `Font`s and grouping
  them into `Family`s sorted by default family name (`SortedFamilies::from`).
*/
module FromFc {
  import opened Wrappers
  import ByLang
  import Text
  import Sorting
  import FcPattern
  import FcFontInfo
  import MatcherFontInfo
  import Grouping
  import FontMod

  /** `Font::try_from(FontInfo)` on the four reads: each must succeed (`?` in field
      order), and neither name map may be empty. */
  function Assemble(families: Result<ByLang.LangMap<string>, ()>, fulls: Result<ByLang.LangMap<string>, ()>,
                    path: Result<string, ()>, index: Result<FcPattern.c_int, ()>): (r: Result<FontMod.Font, ()>)
    ensures r.Ok? <==> (families.Ok? && fulls.Ok? && path.Ok? && index.Ok? &&
      |families.value.entries| != 0 && |fulls.value.entries| != 0)
    ensures r.Ok? ==> r.value == FontMod.Font(families.value, fulls.value, path.value,
      MatcherFontInfo.AsUsize(index.value))
  {
    if families.Err? || fulls.Err? || path.Err? || index.Err? then Err(())
    else if |families.value.entries| == 0 || |fulls.value.entries| == 0 then Err(())
    else Ok(FontMod.Font(families.value, fulls.value, path.value, MatcherFontInfo.AsUsize(index.value)))
  }

  function TryFromSpec(p: FcPattern.Pattern): Result<FontMod.Font, ()>
  {
    Assemble(MatcherFontInfo.FamilyNamesOf(p), MatcherFontInfo.FullNamesOf(p),
      FcPattern.Last(FcPattern.Strings(p, FcFontInfo.FcFile)),
      FcPattern.Last(FcPattern.Integers(p, FcFontInfo.FcIndex)))
  }

  method TryFrom(p: FcPattern.Pattern) returns (r: Result<FontMod.Font, ()>)
    ensures r == TryFromSpec(p)
  {
    var families := FcFontInfo.FamilyNames(p);
    var fulls := FcFontInfo.FullNames(p);
    var path := FcFontInfo.Path(p);
    var index := FcFontInfo.Index(p);
    ghost var spec := Assemble(families, fulls, path, index);
    if families.Err? || fulls.Err? || path.Err? || index.Err? {
      return Err(());
    }
    var f := FontMod.Font(families.value, fulls.value, path.value, MatcherFontInfo.AsUsize(index.value));
    if |f.familyNames.entries| == 0 || |f.fullnames.entries| == 0 {
      return Err(());
    }
    return Ok(f);
  }

  /** A font both of whose name maps have a default. */
  predicate Keyed(f: FontMod.Font)
  {
    ByLang.HasDefault(f.familyNames) && ByLang.HasDefault(f.fullnames)
  }


  /** `try_from` succeeds exactly when all four reads succeed and at least one family
      name and one full name were read; a converted font can then be keyed. */
  lemma TryFromOk(p: FcPattern.Pattern)
    ensures TryFromSpec(p).Ok? <==>
      MatcherFontInfo.FamilyNamesOf(p).Ok? && MatcherFontInfo.FullNamesOf(p).Ok? &&
      FcPattern.Strings(p, FcFontInfo.FcFile) != [] && FcPattern.Integers(p, FcFontInfo.FcIndex) != [] &&
      FcPattern.Strings(p, FcFontInfo.FcFamily) != [] && FcPattern.Strings(p, FcFontInfo.FcFullname) != []
    ensures TryFromSpec(p).Ok? ==> Keyed(TryFromSpec(p).value)
  {
    if MatcherFontInfo.FamilyNamesOf(p).Ok? {
      FcPattern.ByLangHasDefault(p, FcFontInfo.FcFamily, FcFontInfo.FcFamilyLang, Some(FcFontInfo.RemovePrefixDot));
    }
    if MatcherFontInfo.FullNamesOf(p).Ok? {
      FcPattern.ByLangHasDefault(p, FcFontInfo.FcFullname, FcFontInfo.FcFullnameLang, Some(FcFontInfo.RemovePrefixDot));
    }
  }

  // ---------------------------------------------------------------- grouping

  /** The fonts of the set that convert, in set order. */
  function Converted(ps: seq<FcPattern.Pattern>): seq<FontMod.Font>
  {
    Grouping.Kept(ps, TryFromSpec)
  }

  /** Fonts that fail conversion are skipped; every other one is kept, and can be keyed. */
  lemma ConvertedFonts(ps: seq<FcPattern.Pattern>, f: FontMod.Font)
    ensures f in Converted(ps) <==> exists i | 0 <= i < |ps| :: TryFromSpec(ps[i]) == Ok(f)
    ensures f in Converted(ps) ==> Keyed(f)
  {
    Grouping.KeptMembers(ps, TryFromSpec, f);
    if f in Converted(ps) {
      var i :| 0 <= i < |ps| && TryFromSpec(ps[i]) == Ok(f);
      TryFromOk(ps[i]);
    }
  }

  /** The family key: the default family name. Converted fonts always have one
      (`ConvertedFonts`); the empty fallback keeps the key function total. */
  function Key(f: FontMod.Font): string
  {
    if ByLang.HasDefault(f.familyNames) then ByLang.GetDefault(f.familyNames) else []
  }

  /** The key of a built family: the default of its name map. */
  function FamilyKey(f: FontMod.Family): string
  {
    if ByLang.HasDefault(f.name) then ByLang.GetDefault(f.name) else []
  }

  /** The state of the `HashMap` after filing the fonts `conv`: one family per key,
      named after the first font with that key and holding all the fonts with it;
      `order` lists the keys once each. */
  ghost predicate Filed(m: map<string, FontMod.Family>, order: seq<string>, conv: seq<FontMod.Font>)
    reads m.Values
  {
    KeysFiled(m.Keys, order, conv) && NamesFiled(m, conv) && FontsFiled(m, conv)
  }

  ghost predicate KeysFiled(keys: set<string>, order: seq<string>, conv: seq<FontMod.Font>)
  {
    && keys == Grouping.Keys(conv, Key)
    && (forall k | k in order :: k in keys)
    && (forall k | k in keys :: k in order)
    && Sorting.Distinct(order)
  }

  ghost predicate NamesFiled(m: map<string, FontMod.Family>, conv: seq<FontMod.Font>)
  {
    forall k | k in m ::
      k in Grouping.Keys(conv, Key) &&
      m[k].name == Grouping.First(conv, Key, k).familyNames &&
      ByLang.HasDefault(m[k].name) && FamilyKey(m[k]) == k
  }

  ghost predicate FontsFiled(m: map<string, FontMod.Family>, conv: seq<FontMod.Font>)
    reads m.Values
  {
    forall k | k in m :: m[k].fonts == multiset(Grouping.Members(conv, Key, k))
  }

  lemma KeysFiledStep(keys: set<string>, order: seq<string>, conv: seq<FontMod.Font>, font: FontMod.Font)
    requires KeysFiled(keys, order, conv)
    ensures Key(font) in keys ==> KeysFiled(keys, order, conv + [font])
    ensures Key(font) !in keys ==> KeysFiled(keys + {Key(font)}, order + [Key(font)], conv + [font])
  {
    Grouping.KeysStep(conv, Key, font);
  }

  lemma NamesFiledOld(m: map<string, FontMod.Family>, conv: seq<FontMod.Font>, font: FontMod.Font)
    requires NamesFiled(m, conv)
    ensures NamesFiled(m, conv + [font])
  {
    Grouping.FirstStep(conv, Key, font);
  }

  lemma NamesFiledNew(m: map<string, FontMod.Family>, conv: seq<FontMod.Font>, font: FontMod.Font,
                      fam: FontMod.Family)
    requires NamesFiled(m, conv)
    requires Key(font) !in Grouping.Keys(conv, Key)
    requires ByLang.HasDefault(font.familyNames) && fam.name == font.familyNames
    ensures NamesFiled(m[Key(font) := fam], conv + [font])
  {
    Grouping.FirstStep(conv, Key, font);
  }

  /** `Family::new(..)` named after a font, then `add_font` of that font. */
  method NewFamilyWith(font: FontMod.Font) returns (fam: FontMod.Family)
    requires ByLang.HasDefault(font.familyNames)
    ensures fresh(fam) && fam.name == font.familyNames && fam.fonts == multiset{font}
  {
    fam := new FontMod.Family(font.familyNames);
    fam.AddFont(font);
  }

  /** `or_insert_with(|| Family::new(..)).add_font(font)` when no family has the font's
      key yet: a new family named after this font, holding it. */
  method FileNew(m: map<string, FontMod.Family>, order: seq<string>, ghost conv: seq<FontMod.Font>,
                 font: FontMod.Font)
    returns (m': map<string, FontMod.Family>, order': seq<string>)
    requires KeysFiled(m.Keys, order, conv) && NamesFiled(m, conv) && FontsFiled(m, conv)
    requires ByLang.HasDefault(font.familyNames) && Key(font) !in m
    ensures Filed(m', order', conv + [font])
    ensures m'.Keys == m.Keys + {Key(font)} && order' == order + [Key(font)]
    ensures forall k | k in m :: m'[k] == m[k]
    ensures fresh(m'[Key(font)])
  {
    var family := ByLang.GetDefault(font.familyNames);
    assert family == Key(font);
    var fam := NewFamilyWith(font);
    FiledNew(m, order, conv, font, fam);
    m' := m[family := fam];
    order' := order + [family];
  }

  /** Filing a font under a key no family has yet: the map gains the new family under
      that key and the order gains the key. */
  lemma FiledNew(m: map<string, FontMod.Family>, order: seq<string>, conv: seq<FontMod.Font>,
                 font: FontMod.Font, fam: FontMod.Family)
    requires KeysFiled(m.Keys, order, conv) && NamesFiled(m, conv) && FontsFiled(m, conv)
    requires ByLang.HasDefault(font.familyNames) && Key(font) !in m
    requires fam.name == font.familyNames && fam.fonts == multiset{font}
    ensures Filed(m[Key(font) := fam], order + [Key(font)], conv + [font])
  {
    KeysFiledStep(m.Keys, order, conv, font);
    NamesFiledNew(m, conv, font, fam);
    FontsFiledNew(m, conv, font, fam);
    assert m[Key(font) := fam].Keys == m.Keys + {Key(font)};
  }

  lemma FontsFiledNew(m: map<string, FontMod.Family>, conv: seq<FontMod.Font>, font: FontMod.Font,
                      fam: FontMod.Family)
    requires FontsFiled(m, conv) && Key(font) !in m && m.Keys == Grouping.Keys(conv, Key)
    requires fam.fonts == multiset{font}
    ensures FontsFiled(m[Key(font) := fam], conv + [font])
  {
    Grouping.MembersOfAbsent(conv, Key, Key(font));
    forall k | k in m[Key(font) := fam]
      ensures m[Key(font) := fam][k].fonts == multiset(Grouping.Members(conv + [font], Key, k))
    {
      Grouping.MembersStep(conv, Key, font, k);
    }
  }

  /** `entry(..).or_insert_with(..).add_font(font)` when the font's family exists. */
  method FileExisting(m: map<string, FontMod.Family>, order: seq<string>, ghost conv: seq<FontMod.Font>,
                      font: FontMod.Font)
    requires Filed(m, order, conv)
    requires ByLang.HasDefault(font.familyNames) && Key(font) in m
    modifies m[Key(font)]
    ensures Filed(m, order, conv + [font])
  {
    var family := ByLang.GetDefault(font.familyNames);
    assert family == Key(font);
    KeysFiledStep(m.Keys, order, conv, font);
    NamesFiledOld(m, conv, font);
    assert forall k | k in m && k != family :: m[k] != m[family];
    label Before:
    m[family].AddFont(font);
    forall k | k in m
      ensures m[k].fonts == multiset(Grouping.Members(conv + [font], Key, k))
    {
      Grouping.MembersStep(conv, Key, font, k);
      if k != family {
        assert m[k] != m[family];
        assert m[k].fonts == old@Before(m[k].fonts);
      }
    }
  }

  /** The body of the `for_each`: convert one fontconfig font and, when that succeeds,
      file it. */
  method Visit(m: map<string, FontMod.Family>, order: seq<string>, ghost conv: seq<FontMod.Font>,
               p: FcPattern.Pattern)
    returns (m': map<string, FontMod.Family>, order': seq<string>, ghost conv': seq<FontMod.Font>)
    requires Filed(m, order, conv)
    modifies m.Values
    ensures conv' == conv + (match TryFromSpec(p) case Ok(f) => [f] case Err(_) => [])
    ensures Filed(m', order', conv')
    ensures forall k | k in m' :: if k in m then m'[k] == m[k] else fresh(m'[k])
  {
    var r := TryFrom(p);
    m', order', conv' := m, order, conv;
    if r.Ok? {
      TryFromOk(p);
      if Key(r.value) in m {
        FileExisting(m, order, conv, r.value);
      } else {
        m', order' := FileNew(m, order, conv, r.value);
      }
      conv' := conv + [r.value];
    }
  }

  /** `SortedFamilies::from(&FontSet)`: converts each font, files it under its default
      family name (creating the family from the first such font's names), then sorts the
      families by default name. */
  method From(fontSet: seq<FcPattern.Pattern>) returns (families: seq<FontMod.Family>)
    ensures forall j | 0 <= j < |families| :: ByLang.HasDefault(families[j].name)
    ensures forall i, j | 0 <= i < j < |families| ::
      Text.Lt(FamilyKey(families[i]), FamilyKey(families[j]))
    ensures forall j | 0 <= j < |families| ::
      FamilyKey(families[j]) in Grouping.Keys(Converted(fontSet), Key) &&
      families[j].fonts == multiset(Grouping.Members(Converted(fontSet), Key, FamilyKey(families[j]))) &&
      families[j].name == Grouping.First(Converted(fontSet), Key, FamilyKey(families[j])).familyNames
    ensures forall k | k in Grouping.Keys(Converted(fontSet), Key) ::
      exists j | 0 <= j < |families| :: FamilyKey(families[j]) == k
  {
    var m: map<string, FontMod.Family> := map[];
    var order: seq<string> := [];
    ghost var conv: seq<FontMod.Font> := [];
    for i := 0 to |fontSet|
      invariant conv == Converted(fontSet[..i])
      invariant Filed(m, order, conv)
      invariant forall k | k in m :: fresh(m[k])
    {
      Grouping.KeptStep(fontSet, TryFromSpec, i);
      m, order, conv := Visit(m, order, conv, fontSet[i]);
    }
    assert fontSet[..|fontSet|] == fontSet;
    families := Grouping.SortValues(m, order, FamilyKey);
    forall j | 0 <= j < |families|
      ensures ByLang.HasDefault(families[j].name)
      ensures FamilyKey(families[j]) in Grouping.Keys(conv, Key)
      ensures families[j].fonts == multiset(Grouping.Members(conv, Key, FamilyKey(families[j])))
      ensures families[j].name == Grouping.First(conv, Key, FamilyKey(families[j])).familyNames
    {
      var k := FamilyKey(families[j]);
      assert k in m && families[j] == m[k];
    }
  }
}
