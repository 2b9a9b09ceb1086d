/**
 * The page customizer: reading a cookie out of the `document.cookie` string,
 * resolving each setting from the URL, then the cookies, then the defaults,
 * and naming where the settings came from.
 */
module Customizer {
  import opened Wrappers
  import opened Text

  // ------------------------------------------------------------------ cookies

  /** The text after `name=` when `c` starts with it. */
  function ValueAfter(c: string, name: string): Option<string> {
    if StartsWith(c, name + "=") then Some(c[|name| + 1..]) else None
  }

  /** Each `;`-separated segment of the cookie string, trimmed. */
  function TrimAll(segments: seq<string>): (r: seq<string>)
    ensures |r| == |segments|
    ensures forall k :: 0 <= k < |r| ==> r[k] == Trim(segments[k])
  {
    seq(|segments|, k requires 0 <= k < |segments| => Trim(segments[k]))
  }

  /** The search of `getCookie` from trimmed segment `i` on: the first segment that yields a value. */
  function FindFrom(cs: seq<string>, name: string, i: nat): Option<string>
    requires i <= |cs|
    decreases |cs| - i
  {
    if i == |cs| then None
    else if ValueAfter(cs[i], name).Some? then ValueAfter(cs[i], name)
    else FindFrom(cs, name, i + 1)
  }

  /**
   * The search finds nothing exactly when no segment matches, and otherwise
   * returns the value of the first segment that does.
   */
  lemma {:induction false} FindFromFirstMatch(cs: seq<string>, name: string, i: nat)
    requires i <= |cs|
    ensures FindFrom(cs, name, i).None? <==> forall k :: i <= k < |cs| ==> ValueAfter(cs[k], name).None?
    ensures FindFrom(cs, name, i).Some? ==>
      exists k :: i <= k < |cs| && FindFrom(cs, name, i) == ValueAfter(cs[k], name)
        && forall j :: i <= j < k ==> ValueAfter(cs[j], name).None?
    decreases |cs| - i
  {
    if i < |cs| && ValueAfter(cs[i], name).None? {
      FindFromFirstMatch(cs, name, i + 1);
    }
  }

  /** The value `getCookie(name)` returns for the cookie string `cookie`; `None` is `null`. */
  function CookieValue(cookie: string, name: string): Option<string> {
    FindFrom(TrimAll(Split(cookie, ';')), name, 0)
  }

  /** `cookies[i].trim()`, named by its place in the trimmed segments. */
  method TrimmedAt(segments: seq<string>, i: nat) returns (c: string)
    requires i < |segments|
    ensures c == TrimAll(segments)[i]
  {
    c := Trim(segments[i]);
  }

  /** `getCookie`: splits the cookie string at `;` and scans the segments. */
  method GetCookie(cookie: string, name: string) returns (r: Option<string>)
    ensures r == CookieValue(cookie, name)
  {
    var cookies := Split(cookie, ';');
    r := Scan(cookies, name);
  }

  /** The loop of `getCookie`: trims each segment in turn and returns at the first match. */
  method Scan(cookies: seq<string>, name: string) returns (r: Option<string>)
    ensures r == FindFrom(TrimAll(cookies), name, 0)
  {
    ghost var cs := TrimAll(cookies);
    var i := 0;
    while i < |cookies|
      invariant 0 <= i <= |cookies|
      invariant FindFrom(cs, name, i) == FindFrom(cs, name, 0)
    {
      var c := TrimmedAt(cookies, i);
      var v := ValueAfter(c, name);
      if v.Some? {
        return v;
      }
      i := i + 1;
    }
    return None;
  }

  /**
   * A segment for a longer key that merely starts with `name` (`bgColorX=`
   * for `bgColor`) is not a match for `name`.
   */
  lemma LongerKeyDoesNotMatch(segment: string, name: string, key: string)
    requires StartsWith(Trim(segment), key + "=") && '=' !in key
    requires StartsWith(key, name) && |key| > |name|
    ensures ValueAfter(Trim(segment), name).None?
  {
    var c := Trim(segment);
    assert c[|name|] == key[|name|];
  }

  /**
   * The cookie string a browser shows for the stored pairs, in order:
   * `k1=v1; k2=v2; ...`, and the empty string when none is stored.
   */
  function CookieString(pairs: seq<(string, string)>): string {
    if pairs == [] then "" else Join(Segments(pairs), ';')
  }

  function Segments(pairs: seq<(string, string)>): (segs: seq<string>)
    ensures |segs| == |pairs|
  {
    seq(|pairs|, i requires 0 <= i < |pairs| => (if i == 0 then "" else " ") + pairs[i].0 + "=" + pairs[i].1)
  }

  /**
   * A pair that reads back unchanged: a non-empty key without `=`, `;` or
   * leading whitespace, and a value without `;` or trailing whitespace.
   */
  predicate Storable(key: string, value: string) {
    key != "" && '=' !in key && ';' !in key && !IsWhitespace(key[0])
    && ';' !in value && (value == "" || !IsWhitespace(value[|value| - 1]))
  }

  /** The value of the first stored pair whose key is `name`, from pair `i` on. */
  function FirstValue(pairs: seq<(string, string)>, name: string, i: nat): Option<string>
    requires i <= |pairs|
    decreases |pairs| - i
  {
    if i == |pairs| then None
    else if pairs[i].0 == name then Some(pairs[i].1)
    else FirstValue(pairs, name, i + 1)
  }

  /** The browser's separator space and `trim` cancel out on a storable pair. */
  lemma TrimSegment(lead: string, key: string, value: string)
    requires lead == "" || lead == " "
    requires Storable(key, value)
    ensures Trim(lead + key + "=" + value) == key + "=" + value
  {
    var x := key + "=" + value;
    assert x[0] == key[0];
    assert x[|x| - 1] == if value == "" then '=' else value[|value| - 1];
    TrimUnblankEnds(x);
    if lead == " " {
      assert (lead + key + "=" + value)[1..] == x;
    } else {
      assert lead + key + "=" + value == x;
    }
  }

  /** `key=value` yields `value` for `key` and nothing for any other name without `=`. */
  lemma PairMatches(key: string, value: string, name: string)
    requires '=' !in key && '=' !in name
    ensures ValueAfter(key + "=" + value, name) == if key == name then Some(value) else None
  {
    var x := key + "=" + value;
    assert x[..|key|] == key && x[|key|] == '=';
    IndexOfAt(x, '=', |key|);
    if StartsWith(x, name + "=") {
      assert x[..|name|] == name && x[|name|] == '=';
      IndexOfAt(x, '=', |name|);
    }
    if key == name {
      assert x[..|name| + 1] == name + "=";
      assert x[|name| + 1..] == value;
    }
  }

  /** The stored pairs as `key=value` texts, without the browser's separator spaces. */
  function Entries(pairs: seq<(string, string)>): (es: seq<string>)
    ensures |es| == |pairs|
  {
    seq(|pairs|, i requires 0 <= i < |pairs| => pairs[i].0 + "=" + pairs[i].1)
  }

  /** Trimming each segment of the cookie string gives back the `key=value` texts. */
  lemma TrimmedSegments(pairs: seq<(string, string)>)
    requires forall k :: 0 <= k < |pairs| ==> Storable(pairs[k].0, pairs[k].1)
    ensures TrimAll(Segments(pairs)) == Entries(pairs)
  {
    forall k | 0 <= k < |pairs| ensures TrimAll(Segments(pairs))[k] == Entries(pairs)[k] {
      TrimSegment(if k == 0 then "" else " ", pairs[k].0, pairs[k].1);
    }
  }

  /** Searching the `key=value` texts finds the value of the first pair named `name`. */
  lemma {:induction false} FindFromPairs(pairs: seq<(string, string)>, name: string, i: nat)
    requires i <= |pairs| && '=' !in name
    requires forall k :: 0 <= k < |pairs| ==> '=' !in pairs[k].0
    ensures FindFrom(Entries(pairs), name, i) == FirstValue(pairs, name, i)
    decreases |pairs| - i
  {
    if i < |pairs| {
      PairMatches(pairs[i].0, pairs[i].1, name);
      FindFromPairs(pairs, name, i + 1);
    }
  }

  /**
   * Reading a cookie back: `getCookie(name)` over the browser's cookie string
   * returns the value of the first stored pair named `name`, or `null`.
   */
  lemma CookieReadBack(pairs: seq<(string, string)>, name: string)
    requires '=' !in name
    requires forall k :: 0 <= k < |pairs| ==> Storable(pairs[k].0, pairs[k].1)
    ensures CookieValue(CookieString(pairs), name) == FirstValue(pairs, name, 0)
  {
    if pairs == [] {
      assert Split("", ';') == [""];
      assert TrimAll([""])[0] == "";
      assert ValueAfter("", name).None?;
    } else {
      var segs := Segments(pairs);
      forall k | 0 <= k < |segs| ensures ';' !in segs[k] {
        assert segs[k] == (if k == 0 then "" else " ") + pairs[k].0 + "=" + pairs[k].1;
      }
      SplitJoin(segs, ';');
      TrimmedSegments(pairs);
      FindFromPairs(pairs, name, 0);
    }
  }

  // ----------------------------------------------------------------- settings

  datatype Settings = Settings(bgColor: string, textColor: string, fontSize: string)

  /** `defaultSettings` */
  const Defaults: Settings := Settings("white", "black", "16px")

  /** JavaScript's `a || b` on a string that may be `null`: `b` when `a` is `null` or empty. */
  function Or(a: Option<string>, b: Option<string>): (r: Option<string>)
    ensures a.Some? && a.value != "" ==> r == a
    ensures (a.None? || a.value == "") ==> r == b
  {
    if a.Some? && a.value != "" then a else b
  }

  /**
   * One setting: the URL parameter if it is non-empty, else the cookie if it
   * is non-empty, else the default.
   */
  function Pick(url: Option<string>, cookie: Option<string>, default: string): (r: string)
    ensures r == if url.Some? && url.value != "" then url.value
                 else if cookie.Some? && cookie.value != "" then cookie.value
                 else default
    ensures default != "" ==> r != ""
  {
    Or(Or(url, cookie), Some(default)).value
  }

  /** `urlParams.get(key)`: the parameters map each key to its first value. */
  function Param(params: map<string, string>, key: string): Option<string> {
    if key in params then Some(params[key]) else None
  }

  /**
   * One key's setting: its own URL parameter if non-empty, else its own
   * cookie if non-empty, else its own default.
   */
  function Resolve(params: map<string, string>, cookie: string, key: string, default: string): (r: string)
    ensures key in params && params[key] != "" ==> r == params[key]
    ensures (key !in params || params[key] == "") && Truthy(CookieValue(cookie, key)) ==> r == CookieValue(cookie, key).value
    ensures (key !in params || params[key] == "") && !Truthy(CookieValue(cookie, key)) ==> r == default
  {
    Pick(Param(params, key), CookieValue(cookie, key), default)
  }

  /** The initial `settings`, resolved independently for each key. */
  function InitialSettings(params: map<string, string>, cookie: string): (s: Settings)
    ensures s.bgColor == Resolve(params, cookie, "bgColor", Defaults.bgColor)
    ensures s.textColor == Resolve(params, cookie, "textColor", Defaults.textColor)
    ensures s.fontSize == Resolve(params, cookie, "fontSize", Defaults.fontSize)
    ensures s.bgColor != "" && s.textColor != "" && s.fontSize != ""
  {
    Settings(
      Pick(Param(params, "bgColor"), CookieValue(cookie, "bgColor"), Defaults.bgColor),
      Pick(Param(params, "textColor"), CookieValue(cookie, "textColor"), Defaults.textColor),
      Pick(Param(params, "fontSize"), CookieValue(cookie, "fontSize"), Defaults.fontSize))
  }

  /** Where `updateStatusMessage` says the settings came from. */
  datatype Source = FromUrl | FromCookies | FromDefaults

  predicate Truthy(v: Option<string>) {
    v.Some? && v.value != ""
  }

  /**
   * The source classification: the URL if it names any of the three keys,
   * else the cookies if any of the three is set and non-empty, else the
   * defaults.
   */
  function SettingsSource(params: map<string, string>, cookie: string): (src: Source)
    ensures src == FromUrl <==> "bgColor" in params || "textColor" in params || "fontSize" in params
    ensures src == FromDefaults <==>
      !("bgColor" in params || "textColor" in params || "fontSize" in params)
      && !Truthy(CookieValue(cookie, "bgColor")) && !Truthy(CookieValue(cookie, "textColor"))
      && !Truthy(CookieValue(cookie, "fontSize"))
  {
    if "bgColor" in params || "textColor" in params || "fontSize" in params then FromUrl
    else if Truthy(CookieValue(cookie, "bgColor")) || Truthy(CookieValue(cookie, "textColor"))
         || Truthy(CookieValue(cookie, "fontSize")) then FromCookies
    else FromDefaults
  }

  /** The label `updateStatusMessage` shows for each source. */
  function SourceText(src: Source): string {
    match src
    case FromUrl => "Settings loaded from URL parameters"
    case FromCookies => "Settings loaded from cookies"
    case FromDefaults => "Using default settings"
  }

  /** The three labels differ, so the label shown tells the source apart. */
  lemma SourceTextDistinct(a: Source, b: Source)
    ensures SourceText(a) == SourceText(b) <==> a == b
  {
    if a != b {
      assert |SourceText(a)| != |SourceText(b)|;
    }
  }

  /**
   * The label reads "loaded from URL parameters" exactly when one of the three
   * keys is in the URL, and "Using default settings" exactly when no key is
   * and no cookie is non-empty.
   */
  lemma StatusLabel(params: map<string, string>, cookie: string)
    ensures SourceText(SettingsSource(params, cookie)) == SourceText(FromUrl) <==>
      "bgColor" in params || "textColor" in params || "fontSize" in params
    ensures SourceText(SettingsSource(params, cookie)) == SourceText(FromDefaults) <==>
      !("bgColor" in params || "textColor" in params || "fontSize" in params)
      && !Truthy(CookieValue(cookie, "bgColor")) && !Truthy(CookieValue(cookie, "textColor"))
      && !Truthy(CookieValue(cookie, "fontSize"))
  {
    SourceTextDistinct(SettingsSource(params, cookie), FromUrl);
    SourceTextDistinct(SettingsSource(params, cookie), FromDefaults);
  }

  /** When the status names the defaults, the settings are the defaults. */
  lemma DefaultSourceMeansDefaults(params: map<string, string>, cookie: string)
    requires SettingsSource(params, cookie) == FromDefaults
    ensures InitialSettings(params, cookie) == Defaults
  {
  }

  /** A setting read from its cookie alone: the cookie when it is non-empty, else the default. */
  function CookieOr(c: Option<string>, default: string): string {
    if Truthy(c) then c.value else default
  }

  /**
   * When the status names the cookies, every setting is its cookie or the
   * default, and at least one cookie is in use.
   */
  lemma CookieSourceMeansCookies(params: map<string, string>, cookie: string)
    requires SettingsSource(params, cookie) == FromCookies
    ensures InitialSettings(params, cookie) == Settings(
      CookieOr(CookieValue(cookie, "bgColor"), Defaults.bgColor),
      CookieOr(CookieValue(cookie, "textColor"), Defaults.textColor),
      CookieOr(CookieValue(cookie, "fontSize"), Defaults.fontSize))
    ensures Truthy(CookieValue(cookie, "bgColor")) || Truthy(CookieValue(cookie, "textColor"))
      || Truthy(CookieValue(cookie, "fontSize"))
  {
  }

  /**
   * The URL label follows the presence of a key, not its value: `?bgColor=`
   * with no cookies is labelled as loaded from the URL while every setting
   * is the default.
   */
  lemma EmptyUrlValueIsLabelledUrl()
    ensures SettingsSource(map["bgColor" := ""], "") == FromUrl
    ensures InitialSettings(map["bgColor" := ""], "") == Defaults
  {
    CookieReadBack([], "bgColor");
    CookieReadBack([], "textColor");
    CookieReadBack([], "fontSize");
  }
}
