/**
  The fontconfig property reads shared by the font-info wrappers. A fontconfig
  pattern holds, for each property name, a list of typed values; `FcPatternGetString`
  and `FcPatternGetInteger` answer for the value at index `n`, with `FcResultMatch` only
  when such a value exists and has the asked type. The pattern is modelled as that map
  of value lists, and a C string as the bytes before its NUL.
*/
module FcPattern {
  import opened Wrappers
  import Utf8
  import ByLang

  /** C's `int` on the platforms fontconfig runs on. */
  newtype c_int = x: int | -0x8000_0000 <= x < 0x8000_0000

  datatype FcValue = FcString(bytes: seq<Utf8.byte>) | FcInteger(i: c_int) | FcOther

  datatype Pattern = Pattern(props: map<string, seq<FcValue>>)

  function ValuesOf(p: Pattern, name: string): seq<FcValue>
  {
    if name in p.props then p.props[name] else []
  }

  /** `FcPatternGetString(p, name, n, &value)`: the string value at `n`, or no match. */
  function GetString(p: Pattern, name: string, n: nat): Option<seq<Utf8.byte>>
  {
    var vs := ValuesOf(p, name);
    if n < |vs| && vs[n].FcString? then Some(vs[n].bytes) else None
  }

  /** `FcPatternGetInteger(p, name, n, &value)`. */
  function GetInteger(p: Pattern, name: string, n: nat): Option<c_int>
  {
    var vs := ValuesOf(p, name);
    if n < |vs| && vs[n].FcInteger? then Some(vs[n].i) else None
  }

  // ---------------------------------------------------------------- reference

  /** The byte strings at indices 0, 1, ... up to the first value that is not a string. */
  function StringRun(vs: seq<FcValue>): (r: seq<seq<Utf8.byte>>)
    ensures |r| <= |vs|
    ensures forall k | 0 <= k < |r| :: vs[k] == FcString(r[k])
    ensures |r| < |vs| ==> !vs[|r|].FcString?
  {
    if vs == [] || !vs[0].FcString? then [] else [vs[0].bytes] + StringRun(vs[1..])
  }

  /** The integers at indices 0, 1, ... up to the first value that is not an integer. */
  function IntegerRun(vs: seq<FcValue>): (r: seq<c_int>)
    ensures |r| <= |vs|
    ensures forall k | 0 <= k < |r| :: vs[k] == FcInteger(r[k])
    ensures |r| < |vs| ==> !vs[|r|].FcInteger?
  {
    if vs == [] || !vs[0].FcInteger? then [] else [vs[0].i] + IntegerRun(vs[1..])
  }

  /** `CStr::to_str` on each, keeping the ones that are valid UTF-8. */
  function ValidStrings(raw: seq<seq<Utf8.byte>>): (r: seq<string>)
    ensures |r| <= |raw|
  {
    if raw == [] then []
    else
      var last := raw[|raw| - 1];
      ValidStrings(raw[..|raw| - 1]) +
        (match Utf8.Decode(last) case Some(s) => [s] case None => [])
  }

  /** What `get_string_property(name)` returns. */
  function Strings(p: Pattern, name: string): seq<string>
  {
    ValidStrings(StringRun(ValuesOf(p, name)))
  }

  /** What `get_int_property(name)` returns. */
  function Integers(p: Pattern, name: string): seq<c_int>
  {
    IntegerRun(ValuesOf(p, name))
  }

  /** A value that is not valid UTF-8 is dropped; the ones after it are still read. */
  lemma InvalidIsSkipped(raw: seq<seq<Utf8.byte>>, bad: seq<Utf8.byte>, rest: seq<seq<Utf8.byte>>)
    requires Utf8.Decode(bad).None?
    ensures ValidStrings(raw + [bad] + rest) == ValidStrings(raw + rest)
    decreases |rest|
  {
    if rest == [] {
      assert (raw + [bad])[..|raw|] == raw;
      assert raw + [bad] + rest == raw + [bad] && raw + rest == raw;
    } else {
      var n := |rest| - 1;
      InvalidIsSkipped(raw, bad, rest[..n]);
      assert (raw + [bad] + rest)[..|raw| + 1 + n] == raw + [bad] + rest[..n];
      assert (raw + rest)[..|raw| + n] == raw + rest[..n];
    }
  }

  /** When every value is valid UTF-8, each of them is read, decoded, in order. */
  lemma {:induction false} AllValidAreRead(raw: seq<seq<Utf8.byte>>)
    requires forall k | 0 <= k < |raw| :: Utf8.Decode(raw[k]).Some?
    ensures |ValidStrings(raw)| == |raw|
    ensures forall k | 0 <= k < |raw| :: ValidStrings(raw)[k] == Utf8.Decode(raw[k]).value
  {
    if raw != [] {
      var n := |raw| - 1;
      AllValidAreRead(raw[..n]);
      assert forall k | 0 <= k < n :: raw[..n][k] == raw[k];
    }
  }

  /** Every string read is the decoding of one of the values. */
  lemma {:induction false} ValidStringsDecoded(raw: seq<seq<Utf8.byte>>, s: string)
    requires s in ValidStrings(raw)
    ensures exists k | 0 <= k < |raw| :: Utf8.Decode(raw[k]) == Some(s)
  {
    var n := |raw| - 1;
    if s in ValidStrings(raw[..n]) {
      ValidStringsDecoded(raw[..n], s);
      var k :| 0 <= k < n && Utf8.Decode(raw[..n][k]) == Some(s);
      assert raw[k] == raw[..n][k];
    }
  }

  /** A value after the first non-string one is never read. */
  lemma StringRunStops(vs: seq<FcValue>, k: nat)
    requires k < |vs| && !vs[k].FcString?
    ensures StringRun(vs) == StringRun(vs[..k])
    decreases k
  {
    if k > 0 && vs[0].FcString? {
      StringRunStops(vs[1..], k - 1);
      assert vs[..k][1..] == vs[1..][..k - 1];
    }
  }

  // ---------------------------------------------------------------- the loops

  /** `get_string_property`: asks for index 0, 1, ... until fontconfig reports no match,
      keeping the values that are valid UTF-8. */
  method GetStringProperty(p: Pattern, name: string) returns (ret: seq<string>)
    ensures ret == Strings(p, name)
  {
    ghost var vs := ValuesOf(p, name);
    ghost var run := StringRun(vs);
    ret := [];
    var n := 0;
    while true
      invariant n <= |run|
      invariant run[..n] == StringRun(vs)[..n]
      invariant ret == ValidStrings(run[..n])
      decreases |vs| - n
    {
      var value := GetString(p, name, n);
      if value.None? {
        break;
      }
      assert n < |run|;
      assert value.value == run[n];
      assert run[..n + 1][..n] == run[..n];
      match Utf8.Decode(value.value) {
        case Some(s) => ret := ret + [s];
        case None =>
      }
      n := n + 1;
    }
    assert n == |run|;
    assert run[..n] == run;
  }

  /** `get_int_property`: the same loop over integer values. */
  method GetIntProperty(p: Pattern, name: string) returns (ret: seq<c_int>)
    ensures ret == Integers(p, name)
  {
    ghost var vs := ValuesOf(p, name);
    ghost var run := IntegerRun(vs);
    ret := [];
    var n := 0;
    while true
      invariant n <= |run|
      invariant ret == run[..n]
      decreases |vs| - n
    {
      var value := GetInteger(p, name, n);
      if value.None? {
        break;
      }
      assert n < |run|;
      assert value.value == run[n];
      ret := ret + [value.value];
      assert ret == run[..n + 1];
      n := n + 1;
    }
    assert n == |run|;
  }

  /** `value_map.map_or(value, |f| f(value))`. */
  function MapValue(value: string, valueMap: Option<string -> string>): string
  {
    match valueMap
    case Some(f) => f(value)
    case None => value
  }

  /** `MapValue` applied to every value. */
  function MapValues(values: seq<string>, valueMap: Option<string -> string>): (r: seq<string>)
    ensures |r| == |values|
    ensures forall i | 0 <= i < |values| :: r[i] == MapValue(values[i], valueMap)
  {
    match valueMap
    case None => values
    case Some(f) => seq(|values|, i requires 0 <= i < |values| => f(values[i]))
  }

  /** The map `get_string_by_lang_property` returns: Err when the two reads have different
      lengths, else the languages paired positionally with the (mapped) values. */
  function ByLangSpec(p: Pattern, valueKey: string, langKey: string,
                      valueMap: Option<string -> string>): Result<ByLang.LangMap<string>, ()>
  {
    var values := Strings(p, valueKey);
    var langs := Strings(p, langKey);
    if |values| == |langs| then Ok(ByLang.Group(langs, MapValues(values, valueMap))) else Err(())
  }

  /** `get_string_by_lang_property`: both reads, the length check, then the pairing. */
  method GetStringByLangProperty(p: Pattern, valueKey: string, langKey: string,
                                 valueMap: Option<string -> string>)
    returns (r: Result<ByLang.LangMap<string>, ()>)
    ensures r.Err? <==> |Strings(p, valueKey)| != |Strings(p, langKey)|
    ensures r == ByLangSpec(p, valueKey, langKey, valueMap)
  {
    var values := GetStringProperty(p, valueKey);
    var languages := GetStringProperty(p, langKey);
    if |values| != |languages| {
      return Err(());
    }
    var ret := PushPairs(languages, values, valueMap);
    return Ok(ret);
  }

  /** The `for_each` over the zipped reads, pushing each (mapped) value into its
      language's entry. */
  method PushPairs(languages: seq<string>, values: seq<string>, valueMap: Option<string -> string>)
    returns (ret: ByLang.LangMap<string>)
    requires |languages| == |values|
    ensures ret == ByLang.Group(languages, MapValues(values, valueMap))
  {
    ghost var mapped := MapValues(values, valueMap);
    ret := ByLang.Empty();
    var i := 0;
    while i < |languages|
      invariant i <= |languages|
      invariant ret == ByLang.Group(languages[..i], mapped[..i])
    {
      var value := MapValue(values[i], valueMap);
      ByLang.GroupStep(languages, mapped, i);
      ret := ByLang.Push(ret, languages[i], value);
      i := i + 1;
    }
    assert languages[..i] == languages && mapped[..i] == mapped;
  }

  /** A successful by-lang read has a default name exactly when it read some value, and
      is empty exactly when it read none. */
  lemma ByLangHasDefault(p: Pattern, valueKey: string, langKey: string,
                         valueMap: Option<string -> string>)
    requires ByLangSpec(p, valueKey, langKey, valueMap).Ok?
    ensures ByLang.HasDefault(ByLangSpec(p, valueKey, langKey, valueMap).value) <==> Strings(p, valueKey) != []
    ensures |ByLangSpec(p, valueKey, langKey, valueMap).value.entries| == 0 <==> Strings(p, valueKey) == []
  {
    var values := Strings(p, valueKey);
    var langs := Strings(p, langKey);
    var g := ByLang.Group(langs, MapValues(values, valueMap));
    ByLang.GroupHasDefault(langs, MapValues(values, valueMap));
    ByLang.HasDefaultIffNonEmpty(g);
  }

  /** `Vec::pop().ok_or(())`: the last value read, or Err when there is none. */
  function Last<T>(s: seq<T>): (r: Result<T, ()>)
    ensures r.Ok? <==> s != []
    ensures r.Ok? ==> r.value == s[|s| - 1]
  {
    if s == [] then Err(()) else Ok(s[|s| - 1])
  }
}
