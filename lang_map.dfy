/**
  Language-keyed name maps. Fontconfig reports a font's family and full names once per
  language, and the catalogue keeps them as `HashMap<&str, Vec<T>>`: language to the
  values listed for it. A Rust `HashMap` iterates in an order of its own choosing; the
  model carries that order next to the map (`order`), so that "the first entry" taken by
  `values().next()` is a definite one, and the builder below appends a key to `order`
  when it creates its entry.
*/
module ByLang {
  import opened Wrappers

  datatype LangMap<T> = LangMap(entries: map<string, seq<T>>, order: seq<string>)

  /** `order` lists every key exactly once, and no entry is empty: an entry is only
      ever created in order to push a value into it. */
  predicate Valid<T>(m: LangMap<T>)
  {
    (forall k | k in m.order :: k in m.entries) &&
    (forall k | k in m.entries :: k in m.order) &&
    (forall i, j | 0 <= i < j < |m.order| :: m.order[i] != m.order[j]) &&
    (forall k | k in m.entries :: m.entries[k] != [])
  }

  /** The language `get_default` asks for first (`DEFAULT_LANG`). */
  const DefaultLang: string := "en"

  function Empty<T>(): (m: LangMap<T>)
    ensures Valid(m) && m.entries == map[]
  {
    LangMap(map[], [])
  }

  /** `get_by_lang`: the first value stored for `lang`, if any. */
  function GetByLang<T>(m: LangMap<T>, lang: string): Option<T>
  {
    if lang in m.entries && m.entries[lang] != [] then Some(m.entries[lang][0]) else None
  }

  /** A map `get_default` can answer for without panicking. */
  predicate HasDefault<T>(m: LangMap<T>)
  {
    Valid(m) && m.order != []
  }

  /** `when_missing`: the first value of the first entry in iteration order; the
      source unwraps both steps, so the map must not be empty. */
  function WhenMissing<T>(m: LangMap<T>): (r: T)
    requires HasDefault(m)
    ensures m.order[0] in m.entries && r == m.entries[m.order[0]][0]
  {
    assert m.order[0] in m.entries;
    m.entries[m.order[0]][0]
  }

  /** `get_default`: the first "en" value when there is one, else `when_missing`. */
  function GetDefault<T>(m: LangMap<T>): (r: T)
    requires HasDefault(m)
    ensures GetByLang(m, DefaultLang).Some? ==> r == m.entries[DefaultLang][0]
    ensures GetByLang(m, DefaultLang).None? ==> r == WhenMissing(m)
  {
    match GetByLang(m, DefaultLang)
    case Some(v) => v
    case None => WhenMissing(m)
  }

  /** The default is the first value of some language: "en" when it has one. */
  lemma GetDefaultIsStored<T>(m: LangMap<T>)
    requires HasDefault(m)
    ensures exists k | k in m.entries :: GetDefault(m) == m.entries[k][0]
    ensures DefaultLang in m.entries ==> GetDefault(m) == m.entries[DefaultLang][0]
  {
    if DefaultLang !in m.entries {
      assert m.order[0] in m.entries;
    }
  }

  /** Under `Valid`, a map has a default exactly when it is not empty. */
  lemma HasDefaultIffNonEmpty<T>(m: LangMap<T>)
    requires Valid(m)
    ensures HasDefault(m) <==> m.entries != map[]
  {
    if m.order != [] {
      assert m.order[0] in m.entries;
    } else {
      assert forall k :: k !in m.entries;
    }
  }

  // ---------------------------------------------------------------- building

  /** `ret.entry(lang).or_insert_with(Vec::new).push(v)`. */
  function Push<T>(m: LangMap<T>, lang: string, v: T): (r: LangMap<T>)
    requires Valid(m)
    ensures Valid(r)
    ensures r.entries.Keys == m.entries.Keys + {lang}
    ensures r.entries[lang] == (if lang in m.entries then m.entries[lang] else []) + [v]
    ensures forall k | k in m.entries && k != lang :: r.entries[k] == m.entries[k]
    ensures r.order == if lang in m.entries then m.order else m.order + [lang]
  {
    if lang in m.entries then
      ExtendValid(m, lang, v);
      LangMap(m.entries[lang := m.entries[lang] + [v]], m.order)
    else
      NewKeyValid(m, lang, v);
      LangMap(m.entries[lang := [v]], m.order + [lang])
  }

  /** Pushing onto an existing entry keeps the map valid. */
  lemma ExtendValid<T>(m: LangMap<T>, lang: string, v: T)
    requires Valid(m) && lang in m.entries
    ensures Valid(LangMap(m.entries[lang := m.entries[lang] + [v]], m.order))
  {
  }

  /** A new entry, listed last in the order, keeps the map valid. */
  lemma NewKeyValid<T>(m: LangMap<T>, lang: string, v: T)
    requires Valid(m) && lang !in m.entries
    ensures Valid(LangMap(m.entries[lang := [v]], m.order + [lang]))
  {
    var r := LangMap(m.entries[lang := [v]], m.order + [lang]);
    forall k | k in r.order ensures k in r.entries {
      assert k in m.order || k == lang;
    }
    forall i, j | 0 <= i < j < |r.order| ensures r.order[i] != r.order[j] {
      assert r.order[i] == m.order[i] && m.order[i] in m.entries;
    }
  }

  /** The map the by-lang readers build: the pairs `(langs[i], values[i])` pushed in
      order. */
  function Group<T>(langs: seq<string>, values: seq<T>): (r: LangMap<T>)
    requires |langs| == |values|
    ensures Valid(r)
    decreases |langs|
  {
    if langs == [] then Empty()
    else
      var n := |langs| - 1;
      var prev := Group(langs[..n], values[..n]);
      Push(prev, langs[n], values[n])
  }

  /** Membership in a non-empty sequence: in its first part or its last element. */
  lemma InInit<T>(s: seq<T>, x: T)
    requires s != []
    ensures x in s <==> x in s[..|s| - 1] || x == s[|s| - 1]
  {
    assert s == s[..|s| - 1] + [s[|s| - 1]];
  }

  /** One more pair pushed. */
  lemma GroupStep<T>(langs: seq<string>, values: seq<T>, i: nat)
    requires |langs| == |values| && i < |langs|
    ensures Group(langs[..i + 1], values[..i + 1]) ==
      Push(Group(langs[..i], values[..i]), langs[i], values[i])
  {
    assert langs[..i + 1][..i] == langs[..i] && values[..i + 1][..i] == values[..i];
  }

  /** Independent reference: the values paired with `lang`, in input order. */
  function ValuesFor<T>(langs: seq<string>, values: seq<T>, lang: string): seq<T>
    requires |langs| == |values|
    decreases |langs|
  {
    if langs == [] then []
    else
      var n := |langs| - 1;
      ValuesFor(langs[..n], values[..n], lang) + (if langs[n] == lang then [values[n]] else [])
  }

  /** The built map has exactly the input languages as keys. */
  lemma {:induction false} GroupKeys<T>(langs: seq<string>, values: seq<T>, lang: string)
    requires |langs| == |values|
    ensures lang in Group(langs, values).entries <==> lang in langs
    decreases |langs|
  {
    if langs != [] {
      var n := |langs| - 1;
      GroupKeys(langs[..n], values[..n], lang);
      var prev := Group(langs[..n], values[..n]);
      assert Group(langs, values) == Push(prev, langs[n], values[n]);
      InInit(langs, lang);
    }
  }

  /** Each language maps to exactly its values, in input order. */
  lemma {:induction false} GroupEntries<T>(langs: seq<string>, values: seq<T>, lang: string)
    requires |langs| == |values|
    ensures lang in Group(langs, values).entries <==> lang in langs
    ensures lang in langs ==> Group(langs, values).entries[lang] == ValuesFor(langs, values, lang)
    ensures lang !in langs ==> ValuesFor(langs, values, lang) == []
    decreases |langs|
  {
    GroupKeys(langs, values, lang);
    if langs != [] {
      var n := |langs| - 1;
      var prev := Group(langs[..n], values[..n]);
      GroupEntries(langs[..n], values[..n], lang);
      GroupKeys(langs[..n], values[..n], lang);
      var tail := if langs[n] == lang then [values[n]] else [];
      assert ValuesFor(langs, values, lang) == ValuesFor(langs[..n], values[..n], lang) + tail;
      if lang in langs {
        var e := Group(langs, values).entries[lang];
        assert e == (if lang in prev.entries then prev.entries[lang] else []) + tail;
      }
    }
  }

  /** Only paired values are stored under a language. */
  lemma {:induction false} ValuesForIn<T>(langs: seq<string>, values: seq<T>, lang: string, v: T)
    requires |langs| == |values| && v in ValuesFor(langs, values, lang)
    ensures exists i | 0 <= i < |langs| :: langs[i] == lang && values[i] == v
    decreases |langs|
  {
    var n := |langs| - 1;
    if v in ValuesFor(langs[..n], values[..n], lang) {
      ValuesForIn(langs[..n], values[..n], lang, v);
      var i :| 0 <= i < n && langs[..n][i] == lang && values[..n][i] == v;
      assert langs[i] == lang && values[i] == v;
    }
  }

  /** A built map has a default exactly when at least one pair was pushed. */
  lemma {:induction false} GroupHasDefault<T>(langs: seq<string>, values: seq<T>)
    requires |langs| == |values|
    ensures HasDefault(Group(langs, values)) <==> |langs| > 0
    decreases |langs|
  {
    if langs != [] {
      var n := |langs| - 1;
      assert Group(langs, values).entries.Keys == Group(langs[..n], values[..n]).entries.Keys + {langs[n]};
      assert langs[n] in Group(langs, values).order;
    }
  }

  /** `langs[i]` is the first occurrence of `lang`. */
  predicate FirstAt(langs: seq<string>, lang: string, i: nat)
  {
    i < |langs| && langs[i] == lang && forall j | 0 <= j < i :: langs[j] != lang
  }

  /** `get_by_lang` on a built map returns the value of the first pair for `lang`. */
  lemma GetByLangOfGroup<T>(langs: seq<string>, values: seq<T>, lang: string)
    requires |langs| == |values|
    ensures GetByLang(Group(langs, values), lang).Some? <==> lang in langs
    ensures GetByLang(Group(langs, values), lang).Some? ==>
      exists i: nat | FirstAt(langs, lang, i) :: GetByLang(Group(langs, values), lang).value == values[i]
  {
    GroupEntries(langs, values, lang);
    if lang in langs {
      FirstOfValuesFor(langs, values, lang);
    }
  }

  /** No pair for `lang`, no values. */
  lemma {:induction false} ValuesForAbsent<T>(langs: seq<string>, values: seq<T>, lang: string)
    requires |langs| == |values| && lang !in langs
    ensures ValuesFor(langs, values, lang) == []
    decreases |langs|
  {
    if langs != [] {
      var n := |langs| - 1;
      assert forall j | 0 <= j < n :: langs[..n][j] == langs[j];
      ValuesForAbsent(langs[..n], values[..n], lang);
    }
  }

  /** A first occurrence in a prefix is one in the whole. */
  lemma FirstAtPrefix(langs: seq<string>, n: nat, lang: string, i: nat)
    requires n <= |langs| && FirstAt(langs[..n], lang, i)
    ensures FirstAt(langs, lang, i)
  {
    assert forall j | 0 <= j < i :: langs[j] == langs[..n][j];
  }

  /** The first value listed for a language is the one of its first pair. */
  lemma {:induction false} FirstOfValuesFor<T>(langs: seq<string>, values: seq<T>, lang: string)
    requires |langs| == |values| && lang in langs
    ensures ValuesFor(langs, values, lang) != []
    ensures exists i: nat | FirstAt(langs, lang, i) :: ValuesFor(langs, values, lang)[0] == values[i]
    decreases |langs|
  {
    var n := |langs| - 1;
    var prefix := ValuesFor(langs[..n], values[..n], lang);
    var tail := if langs[n] == lang then [values[n]] else [];
    assert ValuesFor(langs, values, lang) == prefix + tail;
    InInit(langs, lang);
    if lang in langs[..n] {
      FirstOfValuesFor(langs[..n], values[..n], lang);
      var i: nat :| FirstAt(langs[..n], lang, i) && prefix[0] == values[..n][i];
      FirstAtPrefix(langs, n, lang, i);
      assert ValuesFor(langs, values, lang)[0] == values[i];
    } else {
      ValuesForAbsent(langs[..n], values[..n], lang);
      assert forall j | 0 <= j < n :: langs[j] == langs[..n][j];
      assert FirstAt(langs, lang, n);
    }
  }

  // ---------------------------------------------------------------- counting

  /** The number of values stored, summed over the keys in iteration order. */
  function Total<T>(m: LangMap<T>): nat
  {
    SumLengths(m.order, m.entries)
  }

  function SumLengths<T>(keys: seq<string>, entries: map<string, seq<T>>): nat
    decreases |keys|
  {
    if keys == [] then 0
    else (if keys[0] in entries then |entries[keys[0]]| else 0) + SumLengths(keys[1..], entries)
  }

  lemma {:induction false} SumLengthsAppend<T>(keys: seq<string>, k: string, entries: map<string, seq<T>>)
    ensures SumLengths(keys + [k], entries) ==
      SumLengths(keys, entries) + (if k in entries then |entries[k]| else 0)
    decreases |keys|
  {
    if keys != [] {
      assert (keys + [k])[1..] == keys[1..] + [k];
      SumLengthsAppend(keys[1..], k, entries);
    }
  }

  lemma {:induction false} SumLengthsUpdate<T>(keys: seq<string>, k: string, entries: map<string, seq<T>>, vs: seq<T>)
    requires k in entries && k in keys
    requires forall i, j | 0 <= i < j < |keys| :: keys[i] != keys[j]
    ensures SumLengths(keys, entries[k := vs]) + |entries[k]| == SumLengths(keys, entries) + |vs|
    decreases |keys|
  {
    assert forall i | 0 <= i < |keys[1..]| :: keys[1..][i] == keys[i + 1];
    if keys[0] == k {
      assert k !in keys[1..];
      SumLengthsFresh(keys[1..], k, entries, vs);
    } else {
      var j :| 0 <= j < |keys| && keys[j] == k;
      assert keys[1..][j - 1] == k;
      SumLengthsUpdate(keys[1..], k, entries, vs);
    }
  }

  lemma PushTotal<T>(m: LangMap<T>, lang: string, v: T)
    requires Valid(m)
    ensures Total(Push(m, lang, v)) == Total(m) + 1
  {
    var r := Push(m, lang, v);
    if lang in m.entries {
      SumLengthsUpdate(m.order, lang, m.entries, m.entries[lang] + [v]);
      assert r.entries == m.entries[lang := m.entries[lang] + [v]];
    } else {
      var e := m.entries[lang := [v]];
      assert r.entries == e;
      SumLengthsAppend(m.order, lang, e);
      SumLengthsFresh(m.order, lang, m.entries, [v]);
    }
  }

  lemma {:induction false} SumLengthsFresh<T>(keys: seq<string>, k: string, entries: map<string, seq<T>>, vs: seq<T>)
    requires k !in keys
    ensures SumLengths(keys, entries[k := vs]) == SumLengths(keys, entries)
    decreases |keys|
  {
    if keys != [] {
      assert forall i | 0 <= i < |keys[1..]| :: keys[1..][i] == keys[i + 1];
      SumLengthsFresh(keys[1..], k, entries, vs);
    }
  }

  /** Every pair is stored: the map holds as many values as there were pairs. */
  lemma {:induction false} GroupTotal<T>(langs: seq<string>, values: seq<T>)
    requires |langs| == |values|
    ensures Total(Group(langs, values)) == |langs|
    decreases |langs|
  {
    if langs != [] {
      var n := |langs| - 1;
      GroupTotal(langs[..n], values[..n]);
      PushTotal(Group(langs[..n], values[..n]), langs[n], values[n]);
    }
  }
}
