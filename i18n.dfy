/**
  The translation runtime of `src/lib/i18n.tsx`: nested translation bundles, dot-path
  lookup, `{{param}}` interpolation, the missing-key fallback, the supported-locale
  guard, the initial-locale rule and the per-locale bundle cache.
*/
module I18n {
  import opened Wrappers
  import JsString
  import BrowserStorage

  /** A translation value: a string leaf or a nested object of further values. */
  datatype Value = Leaf(text: string) | Node(children: map<string, Value>)

  /** A whole translation bundle (the top-level object of a locale's JSON file). */
  type Bundle = map<string, Value>

  /** Interpolation parameters, in the order `Object.entries` lists them. */
  type Params = seq<(string, string)>

  const DefaultLocale: string := "pl"
  const Locales: seq<string> := ["pl", "en"]
  /** The `localStorage` key under which the chosen locale is kept. */
  const LocaleKey: string := "locale"

  predicate IsSupported(loc: string) {
    loc in Locales
  }

  // ---------------------------------------------------------------------------
  // lookup

  /**
    The value reached by following `keys` from `v`; `None` as soon as a key is
    missing or a string is met while keys remain.
  */
  function Descend(v: Value, keys: seq<string>): Option<Value>
    decreases |keys|
  {
    if keys == [] then Some(v)
    else match v
      case Leaf(_) => None
      case Node(m) => if keys[0] in m then Descend(m[keys[0]], keys[1..]) else None
  }

  /** The string leaf at the end of `keys`, if the walk gets there and ends on a string. */
  function Lookup(b: Bundle, keys: seq<string>): Option<string> {
    match Descend(Node(b), keys)
    case Some(Leaf(s)) => Some(s)
    case _ => None
  }

  /** Following `a + c` is following `a`, then `c` from where `a` ended. */
  lemma {:induction false} DescendAppend(v: Value, a: seq<string>, c: seq<string>)
    ensures Descend(v, a + c) == match Descend(v, a)
                                 case None => None
                                 case Some(w) => Descend(w, c)
    decreases |a|
  {
    if a != [] {
      assert a + c != [] && (a + c)[0] == a[0] && (a + c)[1..] == a[1..] + c;
      match v
      case Leaf(_) =>
      case Node(m) =>
        if a[0] in m {
          DescendAppend(m[a[0]], a[1..], c);
        }
    } else {
      assert a + c == c;
    }
  }

  /**
    Lookup succeeds only through objects: every key of the path names an entry of
    the object reached so far, and the path ends on a string.
  */
  lemma LookupFoundOnlyThroughNodes(b: Bundle, keys: seq<string>, s: string)
    requires Lookup(b, keys) == Some(s)
    ensures Descend(Node(b), keys) == Some(Leaf(s))
    ensures forall i :: 0 <= i < |keys| ==>
              Descend(Node(b), keys[..i]).Some? && Descend(Node(b), keys[..i]).value.Node? &&
              keys[i] in Descend(Node(b), keys[..i]).value.children
  {
    forall i | 0 <= i < |keys|
      ensures Descend(Node(b), keys[..i]).Some? && Descend(Node(b), keys[..i]).value.Node? &&
              keys[i] in Descend(Node(b), keys[..i]).value.children
    {
      DescendAppend(Node(b), keys[..i], keys[i..]);
      assert keys[..i] + keys[i..] == keys;
    }
  }

  /**
    Lookup fails when a key is missing, when a string is reached before the last key,
    or when the path ends on a nested object.
  */
  lemma LookupFails(b: Bundle, keys: seq<string>, i: nat)
    requires i <= |keys| && Descend(Node(b), keys[..i]).Some?
    requires var w := Descend(Node(b), keys[..i]).value;
             || (i < |keys| && w.Leaf?)
             || (i < |keys| && w.Node? && keys[i] !in w.children)
             || (i == |keys| && w.Node?)
    ensures Lookup(b, keys) == None
  {
    DescendAppend(Node(b), keys[..i], keys[i..]);
    assert keys[..i] + keys[i..] == keys;
  }

  /** A value holding only the path `keys` down to the string `s`. */
  function Nest(keys: seq<string>, s: string): Value
    decreases |keys|
  {
    if keys == [] then Leaf(s) else Node(map[keys[0] := Nest(keys[1..], s)])
  }

  /** Looking up a path in the value built along that path finds its string. */
  lemma {:induction false} DescendNest(keys: seq<string>, s: string)
    ensures Descend(Nest(keys, s), keys) == Some(Leaf(s))
    decreases |keys|
  {
    if keys != [] {
      DescendNest(keys[1..], s);
    }
  }

  /** `getNestedValue`: splits the path on `.` and walks the bundle one key at a time. */
  method GetNestedValue(obj: Bundle, path: string) returns (r: Option<string>)
    ensures r == Lookup(obj, JsString.Split(path, '.'))
  {
    var keys := JsString.Split(path, '.');
    var current := Node(obj);
    for i := 0 to |keys|
      invariant Descend(Node(obj), keys[..i]) == Some(current)
    {
      DescendAppend(Node(obj), keys[..i], keys[i..]);
      assert keys[..i] + keys[i..] == keys;
      match current
      case Leaf(_) =>
        return None;
      case Node(m) =>
        if keys[i] in m {
          DescendAppend(Node(obj), keys[..i], [keys[i]]);
          assert keys[..i] + [keys[i]] == keys[..i + 1];
          current := m[keys[i]];
        } else {
          return None;
        }
    }
    assert keys[..|keys|] == keys;
    r := if current.Leaf? then Some(current.text) else None;
  }

  // ---------------------------------------------------------------------------
  // interpolation

  /** The token `{{name}}` that a parameter called `name` replaces. */
  function Placeholder(name: string): (p: string)
    ensures |p| == |name| + 4
  {
    "{{" + name + "}}"
  }

  /** Each parameter in turn replaces every occurrence of its placeholder. */
  function ReplaceEach(text: string, ps: Params): string
    decreases |ps|
  {
    if ps == [] then text
    else ReplaceEach(JsString.ReplaceAll(text, Placeholder(ps[0].0), ps[0].1), ps[1..])
  }

  /** `interpolate`: no parameters, or none at all, leave the text as it is. */
  function Interpolate(text: string, params: Option<Params>): (r: string)
    ensures params == None || params == Some([]) ==> r == text
  {
    match params
    case None => text
    case Some(ps) => ReplaceEach(text, ps)
  }

  /** A text without any `{` has no placeholder and comes back unchanged. */
  lemma {:induction false} InterpolateBraceFree(text: string, ps: Params)
    requires '{' !in text
    ensures Interpolate(text, Some(ps)) == text
    decreases |ps|
  {
    if ps != [] {
      var pat := Placeholder(ps[0].0);
      JsString.NoOccurrenceWithoutFirstChar(text, pat);
      JsString.ReplaceAllNoMatch(text, pat, ps[0].1);
      InterpolateBraceFree(text, ps[1..]);
    }
  }

  predicate BraceFree(s: string) {
    '{' !in s && '}' !in s
  }

  /** `q` occurs somewhere in `s`. */
  predicate Contains(s: string, q: string) {
    exists k: nat | k <= |s| :: JsString.OccursAt(s, q, k)
  }

  /** The character at `x`, or `'\0'` outside the string; lets the overlap argument index freely. */
  function At(s: string, x: int): char {
    if 0 <= x < |s| then s[x] else '\0'
  }

  /** Where the braces of a placeholder of a brace-free name stand. */
  lemma PlaceholderShape(name: string)
    requires BraceFree(name)
    ensures forall t :: 0 <= t < |name| + 4 ==> (At(Placeholder(name), t) == '{' <==> t < 2)
    ensures forall t :: 0 <= t < |name| + 4 ==> (At(Placeholder(name), t) == '}' <==> t >= |name| + 2)
    ensures Placeholder(name)[2..|name| + 2] == name
  {
    var p := Placeholder(name);
    forall t | 2 <= t < |name| + 2 ensures p[t] == name[t - 2] && p[t] != '{' && p[t] != '}' {
      assert name[t - 2] in name;
    }
  }

  /**
    Two placeholders of different brace-free names cannot overlap: where `{{j}}` stands,
    no occurrence of `{{k}}` starts inside it or runs into it.
  */
  lemma PlaceholdersDoNotOverlap(s: string, j: string, k: string, i: nat, m: nat)
    requires BraceFree(j) && BraceFree(k) && j != k
    requires JsString.OccursAt(s, Placeholder(j), i)
    requires JsString.OccursAt(s, Placeholder(k), m)
    ensures m >= i + |Placeholder(j)| || m + |Placeholder(k)| <= i
  {
    var q, p := Placeholder(j), Placeholder(k);
    PlaceholderShape(j);
    PlaceholderShape(k);
    assert forall x :: i <= x < i + |q| ==> At(s, x) == At(q, x - i);
    assert forall x :: m <= x < m + |p| ==> At(s, x) == At(p, x - m);
    // an earlier start would line up a '{' of {{k}} with the first '{' of {{j}}, then a non-'{' with the second
    assert m < i < m + |p| ==> At(s, i) == At(p, i - m) && i - m == 1;
    assert m < i < m + |p| ==> At(s, i + 1) == At(p, 2) && At(s, i + 1) == At(q, 1);
    // a later start inside {{j}} would need a '{' of {{j}} past its first two characters
    assert i < m < i + |q| ==> At(s, m) == At(q, m - i) && m - i == 1;
    assert i < m < i + |q| ==> At(s, m + 1) == At(q, 2) && At(s, m + 1) == At(p, 1);
    // the same start puts the first '}' of both at the same place, so the names agree
    assert m == i && |k| < |j| ==> At(s, i + |k| + 2) == At(p, |k| + 2) && At(s, i + |k| + 2) == At(q, |k| + 2);
    assert m == i && |j| < |k| ==> At(s, i + |j| + 2) == At(q, |j| + 2) && At(s, i + |j| + 2) == At(p, |j| + 2);
    assert m == i && |j| == |k| ==> q == p;
  }

  /** When no occurrence of `pat` starts before `t`, the first `t` characters are copied as they are. */
  lemma {:induction false} ReplaceAllCopiesPrefix(s: string, pat: string, rep: string, t: nat)
    requires |pat| > 0 && t <= |s|
    requires forall m :: 0 <= m < t ==> !JsString.OccursAt(s, pat, m)
    ensures JsString.ReplaceAll(s, pat, rep) == s[..t] + JsString.ReplaceAll(s[t..], pat, rep)
    decreases t
  {
    if t == 0 {
      assert s[..0] + s[0..] == s;
    } else if |s| < |pat| {
      assert JsString.ReplaceAll(s[t..], pat, rep) == s[t..];
      assert s[..t] + s[t..] == s;
    } else {
      var tail := s[1..];
      assert !JsString.OccursAt(s, pat, 0);
      assert JsString.ReplaceAll(s, pat, rep) == [s[0]] + JsString.ReplaceAll(tail, pat, rep);
      forall m | 0 <= m < t - 1 ensures !JsString.OccursAt(tail, pat, m) {
        JsString.OccursShift(s, pat, 1, m + 1);
      }
      ReplaceAllCopiesPrefix(tail, pat, rep, t - 1);
      assert tail[t - 1..] == s[t..];
      assert [s[0]] + tail[..t - 1] == s[..t];
    }
  }

  /** An occurrence in `y` is an occurrence in `x + y`, shifted by `|x|`. */
  lemma OccursAfterPrefix(x: string, y: string, q: string, k: nat)
    requires JsString.OccursAt(y, q, k)
    ensures JsString.OccursAt(x + y, q, |x| + k)
    ensures Contains(x + y, q)
  {
    assert (x + y)[|x| + k..|x| + k + |q|] == y[k..k + |q|];
    var j: nat := |x| + k;
    assert j <= |x + y| && JsString.OccursAt(x + y, q, j);
  }

  /**
    Dropping the first `d` characters of `s` keeps an occurrence of `q` at `i >= d`, and
    every occurrence of `pat` in the rest comes from one in `s` that, by assumption,
    does not overlap it.
  */
  lemma KeptAfterDrop(s: string, pat: string, q: string, i: nat, d: nat)
    requires d <= i && d <= |s|
    requires JsString.OccursAt(s, q, i)
    requires forall m :: 0 <= m <= |s| && JsString.OccursAt(s, pat, m) ==> m >= i + |q| || m + |pat| <= i
    ensures JsString.OccursAt(s[d..], q, i - d)
    ensures forall m :: 0 <= m <= |s[d..]| && JsString.OccursAt(s[d..], pat, m) ==>
              m >= i - d + |q| || m + |pat| <= i - d
  {
    JsString.OccursShift(s, q, d, i);
    forall m | 0 <= m <= |s[d..]| && JsString.OccursAt(s[d..], pat, m)
      ensures m >= i - d + |q| || m + |pat| <= i - d
    {
      JsString.OccursShift(s, pat, d, m + d);
    }
  }

  /** An occurrence of `q` that no occurrence of `pat` overlaps survives a global replace of `pat`. */
  lemma {:induction false} ReplaceAllKeeps(s: string, pat: string, rep: string, q: string, i: nat)
    requires |pat| > 0
    requires JsString.OccursAt(s, q, i)
    requires forall m :: 0 <= m <= |s| && JsString.OccursAt(s, pat, m) ==> m >= i + |q| || m + |pat| <= i
    ensures Contains(JsString.ReplaceAll(s, pat, rep), q)
    decreases |s|
  {
    var r := JsString.ReplaceAll(s, pat, rep);
    if i == 0 {
      ReplaceAllCopiesPrefix(s, pat, rep, |q|);
      assert r[..|q|] == s[..|q|];
      assert JsString.OccursAt(r, q, 0);
    } else if |s| < |pat| {
      assert r == s;
      assert JsString.OccursAt(r, q, i);
    } else if s[..|pat|] == pat {
      assert JsString.OccursAt(s, pat, 0);
      assert |pat| <= i;
      var rest := s[|pat|..];
      KeptAfterDrop(s, pat, q, i, |pat|);
      ReplaceAllKeeps(rest, pat, rep, q, i - |pat|);
      var ra := JsString.ReplaceAll(rest, pat, rep);
      var k: nat :| JsString.OccursAt(ra, q, k);
      assert r == rep + ra;
      OccursAfterPrefix(rep, ra, q, k);
    } else {
      var rest := s[1..];
      KeptAfterDrop(s, pat, q, i, 1);
      ReplaceAllKeeps(rest, pat, rep, q, i - 1);
      var ra := JsString.ReplaceAll(rest, pat, rep);
      var k: nat :| JsString.OccursAt(ra, q, k);
      assert r == [s[0]] + ra;
      OccursAfterPrefix([s[0]], ra, q, k);
    }
  }

  /**
    A global replace turns the first occurrence of `pat` into `rep`, copies the text before
    it, and goes on after the occurrence.
  */
  lemma ReplaceAllAtFirst(s: string, pat: string, rep: string, i: nat)
    requires |pat| > 0
    requires JsString.OccursAt(s, pat, i)
    requires forall m :: 0 <= m < i ==> !JsString.OccursAt(s, pat, m)
    ensures JsString.ReplaceAll(s, pat, rep) == s[..i] + rep + JsString.ReplaceAll(s[i + |pat|..], pat, rep)
  {
    ReplaceAllCopiesPrefix(s, pat, rep, i);
    var u := s[i..];
    assert u[..|pat|] == pat by {
      assert u[..|pat|] == s[i..i + |pat|];
    }
    assert u[|pat|..] == s[i + |pat|..];
    assert JsString.ReplaceAll(u, pat, rep) == rep + JsString.ReplaceAll(u[|pat|..], pat, rep);
  }

  /**
    With one parameter, the first `{{k}}` of the text becomes the parameter's value; the text
    before it is kept and interpolation goes on after it.
  */
  lemma InterpolateFirstOccurrence(text: string, k: string, v: string, i: nat)
    requires JsString.OccursAt(text, Placeholder(k), i)
    requires forall m :: 0 <= m < i ==> !JsString.OccursAt(text, Placeholder(k), m)
    ensures Interpolate(text, Some([(k, v)])) ==
            text[..i] + v + Interpolate(text[i + |Placeholder(k)|..], Some([(k, v)]))
  {
    var p := Placeholder(k);
    ReplaceAllAtFirst(text, p, v, i);
    var rest := text[i + |p|..];
    assert ReplaceEach(text, [(k, v)]) == JsString.ReplaceAll(text, p, v);
    assert ReplaceEach(rest, [(k, v)]) == JsString.ReplaceAll(rest, p, v);
  }

  /** A single placeholder between brace-free texts is replaced by its value: `a{{k}}b` reads `a` + value + `b`. */
  lemma InterpolateSubstitutes(a: string, k: string, v: string, b: string)
    requires '{' !in a && '{' !in b
    ensures Interpolate(a + Placeholder(k) + b, Some([(k, v)])) == a + v + b
  {
    var p := Placeholder(k);
    var text := a + p + b;
    assert JsString.OccursAt(text, p, |a|) by {
      assert text[|a|..|a| + |p|] == p;
    }
    forall m | 0 <= m < |a| ensures !JsString.OccursAt(text, p, m) {
      assert text[m] == a[m];
      if m + |p| <= |text| {
        assert text[m..m + |p|][0] == text[m];
      }
    }
    InterpolateFirstOccurrence(text, k, v, |a|);
    assert text[..|a|] == a && text[|a| + |p|..] == b;
    InterpolateBraceFree(b, [(k, v)]);
  }

  /**
    A placeholder that no parameter names stays in the text literally, whatever the
    parameters' values (names taken to be free of braces).
  */
  lemma {:induction false} InterpolateKeepsUnmatched(text: string, ps: Params, j: string)
    requires BraceFree(j) && Contains(text, Placeholder(j))
    requires forall e <- ps :: BraceFree(e.0) && e.0 != j
    ensures Contains(Interpolate(text, Some(ps)), Placeholder(j))
    decreases |ps|
  {
    if ps != [] {
      var i: nat :| JsString.OccursAt(text, Placeholder(j), i);
      forall m | 0 <= m <= |text| && JsString.OccursAt(text, Placeholder(ps[0].0), m)
        ensures m >= i + |Placeholder(j)| || m + |Placeholder(ps[0].0)| <= i
      {
        PlaceholdersDoNotOverlap(text, j, ps[0].0, i, m);
      }
      ReplaceAllKeeps(text, Placeholder(ps[0].0), ps[0].1, Placeholder(j), i);
      InterpolateKeepsUnmatched(JsString.ReplaceAll(text, Placeholder(ps[0].0), ps[0].1), ps[1..], j);
    }
  }

  // ---------------------------------------------------------------------------
  // t

  /** `t`: the interpolated leaf at the key's dot path, or the key itself when there is none. */
  function Translate(b: Bundle, key: string, params: Option<Params>): string {
    match Lookup(b, JsString.Split(key, '.'))
    case None => key
    case Some(s) => Interpolate(s, params)
  }

  /** A missing key is shown as itself; a present one as its interpolated leaf. */
  lemma TranslateSpec(b: Bundle, key: string, params: Option<Params>)
    ensures Lookup(b, JsString.Split(key, '.')) == None ==> Translate(b, key, params) == key
    ensures forall s :: Descend(Node(b), JsString.Split(key, '.')) == Some(Leaf(s)) ==>
              Translate(b, key, params) == Interpolate(s, params)
  {
  }

  /** With the empty bundle used after a failed fetch, every key falls back to itself. */
  lemma TranslateEmptyBundle(key: string, params: Option<Params>)
    ensures Translate(map[], key, params) == key
  {
    var keys := JsString.Split(key, '.');
    var empty: Bundle := map[];
    assert keys[0] !in empty;
  }

  /** The key `hero.title` of a bundle built along that path gives its interpolated string. */
  lemma TranslateNested(head: string, tail: string, s: string, params: Option<Params>)
    requires '.' !in head && '.' !in tail
    ensures Translate(map[head := Nest([tail], s)], head + "." + tail, params) == Interpolate(s, params)
  {
    JsString.SplitJoin([head, tail], '.');
    assert JsString.Join([head, tail], '.') == head + "." + tail;
    DescendNest([tail], s);
  }

  /** Substituting `Ann` for `{{name}}` in `Hello {{name}}` reads `Hello Ann`. */
  lemma GreetingInterpolation()
    ensures Interpolate("Hello {{name}}", Some([("name", "Ann")])) == "Hello Ann"
  {
    var text := "Hello {{name}}";
    var pat := Placeholder("name");
    assert pat == "{{name}}";
    forall m | 0 <= m < 6 ensures !JsString.OccursAt(text, pat, m) {
      assert text[m] != '{';
      if m + |pat| <= |text| {
        assert text[m..m + |pat|][0] == text[m];
      }
    }
    ReplaceAllCopiesPrefix(text, pat, "Ann", 6);
    assert text[6..] == pat;
    assert text[..6] == "Hello ";
    JsString.ReplaceAllWhole(pat, "Ann");
    assert JsString.ReplaceAll(text, pat, "Ann") == "Hello Ann";
    var ps := [("name", "Ann")];
    assert ReplaceEach(text, ps) == ReplaceEach(JsString.ReplaceAll(text, pat, "Ann"), ps[1..]);
  }

  /** `{"hero": {"title": "Hello {{name}}"}}` with `name = "Ann"` reads `Hello Ann` at `hero.title`. */
  lemma GreetingExample()
    ensures Translate(map["hero" := Node(map["title" := Leaf("Hello {{name}}")])], "hero.title",
                      Some([("name", "Ann")])) == "Hello Ann"
  {
    assert Nest(["title"], "Hello {{name}}") == Node(map["title" := Leaf("Hello {{name}}")]);
    assert "hero" + "." + "title" == "hero.title";
    TranslateNested("hero", "title", "Hello {{name}}", Some([("name", "Ann")]));
    GreetingInterpolation();
  }

  // ---------------------------------------------------------------------------
  // initial locale

  /** The language part of `navigator.language`: what comes before the first `-`. */
  function BrowserPrefix(language: string): (r: string)
    ensures r <= language && '-' !in r
    ensures |r| == |language| || language[|r|] == '-'
  {
    var parts := JsString.Split(language, '-');
    JsString.SplitFirstPiece(language, '-');
    parts[0]
  }

  /**
    The first locale: the saved choice if it is supported, else the browser's
    language if supported, else the default.
  */
  function InitialLocale(saved: Option<string>, browserLanguage: string): (r: string)
    ensures IsSupported(r)
    ensures saved.Some? && IsSupported(saved.value) ==> r == saved.value
    ensures !(saved.Some? && IsSupported(saved.value)) && IsSupported(BrowserPrefix(browserLanguage)) ==>
              r == BrowserPrefix(browserLanguage)
    ensures !(saved.Some? && IsSupported(saved.value)) && !IsSupported(BrowserPrefix(browserLanguage)) ==>
              r == DefaultLocale
  {
    if saved.Some? && saved.value != "" && IsSupported(saved.value) then saved.value
    else if IsSupported(BrowserPrefix(browserLanguage)) then BrowserPrefix(browserLanguage)
    else DefaultLocale
  }

  // ---------------------------------------------------------------------------
  // the provider

  /** What the request for a locale's JSON file yields: the parsed bundle, or any failure. */
  datatype FetchOutcome = Fetched(bundle: Bundle) | FetchFailed

  /** Where a locale's bundle is requested from. */
  function BundleUrl(loc: string): string {
    "/locales/" + loc + ".json"
  }

  /** The module-level `translationsCache`, shared by every provider. */
  class TranslationCache {
    var bundles: map<string, Bundle>

    constructor ()
      ensures bundles == map[]
    {
      bundles := map[];
    }
  }

  /** `I18nProvider`: the current locale, its active bundle and the loading flag. */
  class Provider {
    var locale: string
    var translations: Bundle
    var isLoading: bool
    /** `document.documentElement.lang`. */
    var documentLang: string
    /** The bundle URLs requested from the network, in order. */
    var requests: seq<string>
    const storage: BrowserStorage.Storage
    const cache: TranslationCache

    constructor (storage: BrowserStorage.Storage, cache: TranslationCache)
      ensures this.storage == storage && this.cache == cache
      ensures locale == DefaultLocale && documentLang == DefaultLocale
      ensures translations == map[] && isLoading && requests == []
    {
      this.storage := storage;
      this.cache := cache;
      locale := DefaultLocale;
      documentLang := DefaultLocale;
      translations := map[];
      isLoading := true;
      requests := [];
    }

    /** `t` of the context: looks the key up in the active bundle. */
    function T(key: string, params: Option<Params>): (r: string)
      reads this
      ensures Lookup(translations, JsString.Split(key, '.')) == None ==> r == key
      ensures forall s :: Descend(Node(translations), JsString.Split(key, '.')) == Some(Leaf(s)) ==>
                r == Interpolate(s, params)
    {
      TranslateSpec(translations, key, params);
      Translate(translations, key, params)
    }

    /** `setLocale`: an unsupported locale changes nothing; a supported one becomes current and is saved. */
    method SetLocale(newLocale: string)
      modifies this, storage
      ensures IsSupported(newLocale) ==>
                locale == newLocale && documentLang == newLocale &&
                storage.items == old(storage.items)[LocaleKey := newLocale]
      ensures !IsSupported(newLocale) ==>
                locale == old(locale) && documentLang == old(documentLang) &&
                storage.items == old(storage.items)
      ensures translations == old(translations) && isLoading == old(isLoading) && requests == old(requests)
    {
      if IsSupported(newLocale) {
        locale := newLocale;
        storage.SetItem(LocaleKey, newLocale);
        documentLang := newLocale;
      }
    }

    /** The mount effect: picks the first locale from the saved choice and the browser's language. */
    method Initialize(browserLanguage: string)
      modifies this
      ensures locale == InitialLocale(storage.Get(LocaleKey), browserLanguage)
      ensures documentLang == locale
      ensures translations == old(translations) && isLoading == old(isLoading) && requests == old(requests)
    {
      var saved := storage.Get(LocaleKey);
      locale := InitialLocale(saved, browserLanguage);
      documentLang := locale;
    }

    /**
      `loadTranslations`: a cached bundle is activated without a request; otherwise the
      bundle is requested, cached and activated on success, and replaced by an empty
      bundle, without caching, on failure. Loading is over in every case.
    */
    method LoadTranslations(loc: string, outcome: FetchOutcome)
      modifies this, cache
      ensures !isLoading
      ensures loc in old(cache.bundles) ==>
                translations == old(cache.bundles)[loc] && cache.bundles == old(cache.bundles) &&
                requests == old(requests)
      ensures loc !in old(cache.bundles) ==> requests == old(requests) + [BundleUrl(loc)]
      ensures loc !in old(cache.bundles) && outcome.Fetched? ==>
                translations == outcome.bundle && cache.bundles == old(cache.bundles)[loc := outcome.bundle]
      ensures loc !in old(cache.bundles) && outcome.FetchFailed? ==>
                translations == map[] && cache.bundles == old(cache.bundles)
      ensures locale == old(locale) && documentLang == old(documentLang)
    {
      if loc in cache.bundles {
        translations := cache.bundles[loc];
        isLoading := false;
        return;
      }
      isLoading := true;
      requests := requests + [BundleUrl(loc)];
      match outcome {
        case Fetched(data) =>
          cache.bundles := cache.bundles[loc := data];
          translations := data;
        case FetchFailed =>
          translations := map[];
      }
      isLoading := false;
    }
  }

  /** Loading the same locale twice, the first time successfully, requests its bundle once. */
  method LoadTwiceRequestsOnce(loc: string, b: Bundle, second: FetchOutcome, key: string)
    returns (requestCount: nat, shown: string)
    ensures requestCount == 1
    ensures shown == Translate(b, key, None)
  {
    var storage := new BrowserStorage.Storage(map[]);
    var cache := new TranslationCache();
    var p := new Provider(storage, cache);
    p.LoadTranslations(loc, Fetched(b));
    p.LoadTranslations(loc, second);
    requestCount := |p.requests|;
    shown := p.T(key, None);
  }

  /** A locale chosen in one session is the first locale of the next, whatever the browser says. */
  method ChoiceSurvivesNewSession(choice: string, browserLanguage: string) returns (initial: string)
    requires IsSupported(choice)
    ensures initial == choice
  {
    var storage := new BrowserStorage.Storage(map[]);
    var cache := new TranslationCache();
    var first := new Provider(storage, cache);
    first.SetLocale(choice);
    var second := new Provider(storage, cache);
    second.Initialize(browserLanguage);
    initial := second.locale;
  }
}
