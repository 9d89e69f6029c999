/**
 * URL normalisation done by the constructors of Web2PDF, Web2Text and All2PDF:
 * each entry is stripped of surrounding whitespace and, unless the raw entry
 * begins with the four letters "http", prefixed with "http://".
 */
module Urls {

  import opened Common

  /** The characters for which Python's `str.isspace()` holds; `str.strip()` removes them. */
  predicate IsSpace(c: char) {
    ('\t' <= c <= '\r') || ('\U{1C}' <= c <= ' ') || c == '\U{85}' || c == '\U{A0}'
    || c == '\U{1680}' || ('\U{2000}' <= c <= '\U{200A}') || c == '\U{2028}' || c == '\U{2029}'
    || c == '\U{202F}' || c == '\U{205F}' || c == '\U{3000}'
  }

  predicate AllSpace(s: string) {
    forall i :: 0 <= i < |s| ==> IsSpace(s[i])
  }

  /** Length of the run of whitespace that opens `s`. */
  function LeadingSpace(s: string): (n: nat)
    ensures n <= |s| && AllSpace(s[..n])
    ensures n < |s| ==> !IsSpace(s[n])
  {
    if s != [] && IsSpace(s[0]) then 1 + LeadingSpace(s[1..]) else 0
  }

  /** Length of the run of whitespace that closes `s`. */
  function TrailingSpace(s: string): (n: nat)
    ensures n <= |s| && AllSpace(s[|s| - n..])
    ensures n < |s| ==> !IsSpace(s[|s| - n - 1])
  {
    if s != [] && IsSpace(s[|s| - 1]) then 1 + TrailingSpace(s[..|s| - 1]) else 0
  }

  /** Python's `str.strip()` with no argument. */
  function Strip(s: string): (r: string)
    ensures |r| <= |s|
    ensures var i := LeadingSpace(s);
            i + |r| <= |s| && r == s[i..i + |r|] && AllSpace(s[..i]) && AllSpace(s[i + |r|..])
    ensures r == [] || (!IsSpace(r[0]) && !IsSpace(r[|r| - 1]))
  {
    var i := LeadingSpace(s);
    var n := TrailingSpace(s);
    if i == |s| then [] else s[i..|s| - n]
  }

  /** Python's `s.startswith(prefix)`. */
  predicate StartsWith(s: string, prefix: string) {
    |prefix| <= |s| && s[..|prefix|] == prefix
  }

  /** The literal tested by `url.startswith("http")`. */
  const Scheme: string := "http"

  /** The text put in front of an entry that does not begin with `Scheme`. */
  const DefaultPrefix: string := "http://"

  /** One entry of the constructors' list comprehension. */
  function Normalize(url: string): (r: string)
    ensures StartsWith(r, Scheme)
    ensures Strip(r) == r
  {
    var s := Strip(url);
    if StartsWith(url, Scheme) then
      StripKeepsScheme(url);
      StripIdempotent(url);
      s
    else
      PrefixedIsFixed(s);
      DefaultPrefix + s
  }

  /** Putting `DefaultPrefix` in front of a stripped string gives a stripped string with the scheme. */
  lemma PrefixedIsFixed(s: string)
    requires s == [] || (!IsSpace(s[0]) && !IsSpace(s[|s| - 1]))
    ensures StartsWith(DefaultPrefix + s, Scheme) && Strip(DefaultPrefix + s) == DefaultPrefix + s
  {
    var r := DefaultPrefix + s;
    assert r[..4] == Scheme;
    assert r[|r| - 1] == (if s == [] then '/' else s[|s| - 1]);
    StrippedIsFixed(r);
  }

  /** `self.urls` of Web2PDF and All2PDF: every entry normalised on its own, in input order. */
  function NormalizeAll(urls: seq<string>): (r: seq<string>)
    ensures |r| == |urls|
    ensures forall i :: 0 <= i < |urls| && StartsWith(urls[i], Scheme) ==> r[i] == Strip(urls[i])
    ensures forall i :: 0 <= i < |urls| && !StartsWith(urls[i], Scheme) ==> r[i] == DefaultPrefix + Strip(urls[i])
    ensures forall i :: 0 <= i < |r| ==> StartsWith(r[i], Scheme)
  {
    seq(|urls|, i requires 0 <= i < |urls| => Normalize(urls[i]))
  }

  /** `self.urls` of Web2Text, whose argument defaults to `None`: a falsy argument gives `[]`. */
  function NormalizeOptional(urls: Option<seq<string>>): (r: seq<string>)
    ensures (urls.None? || urls.value == []) ==> r == []
    ensures urls.Some? ==> r == NormalizeAll(urls.value)
  {
    if urls.Some? && urls.value != [] then NormalizeAll(urls.value) else []
  }

  // ---------------------------------------------------------------------------
  // Properties of Strip

  /** A string with no whitespace at either end is its own strip. */
  lemma StrippedIsFixed(s: string)
    requires s == [] || (!IsSpace(s[0]) && !IsSpace(s[|s| - 1]))
    ensures Strip(s) == s
  {
    if s != [] {
      assert LeadingSpace(s) == 0;
      assert TrailingSpace(s) == 0;
    }
  }

  /** `str.strip()` is idempotent. */
  lemma StripIdempotent(s: string)
    ensures Strip(Strip(s)) == Strip(s)
  {
    StrippedIsFixed(Strip(s));
  }

  /**
   * Strip is the unique middle part: whenever `s` splits into whitespace, a core
   * with no whitespace at either end, and whitespace, that core is `Strip(s)`.
   */
  lemma {:induction false} StripUnique(a: string, core: string, b: string)
    requires AllSpace(a) && AllSpace(b)
    requires core == [] || (!IsSpace(core[0]) && !IsSpace(core[|core| - 1]))
    ensures Strip(a + core + b) == core
  {
    var s := a + core + b;
    if core == [] {
      assert s == a + b;
      assert AllSpace(s);
      AllSpaceStripsToEmpty(s);
    } else {
      LeadingOf(a, core + b);
      assert s == a + (core + b);
      assert LeadingSpace(s) == |a|;
      assert s == (a + core) + b;
      TrailingOf(a + core, b);
      assert TrailingSpace(s) == |b|;
      assert s[|a|..|s| - |b|] == core;
    }
  }

  lemma {:induction false} AllSpaceStripsToEmpty(s: string)
    requires AllSpace(s)
    ensures LeadingSpace(s) == |s| && Strip(s) == []
  {
    if s != [] {
      assert AllSpace(s[1..]);
      AllSpaceStripsToEmpty(s[1..]);
    }
  }

  lemma {:induction false} LeadingOf(a: string, rest: string)
    requires AllSpace(a) && rest != [] && !IsSpace(rest[0])
    ensures LeadingSpace(a + rest) == |a|
  {
    if a != [] {
      assert (a + rest)[1..] == a[1..] + rest;
      assert AllSpace(a[1..]);
      LeadingOf(a[1..], rest);
    } else {
      assert a + rest == rest;
    }
  }

  lemma {:induction false} TrailingOf(core: string, b: string)
    requires AllSpace(b) && core != [] && !IsSpace(core[|core| - 1])
    ensures TrailingSpace(core + b) == |b|
  {
    var s := core + b;
    if b != [] {
      assert s[..|s| - 1] == core + b[..|b| - 1];
      assert AllSpace(b[..|b| - 1]);
      TrailingOf(core, b[..|b| - 1]);
    } else {
      assert s == core;
    }
  }

  /** A string that begins with "http" still does after stripping; stripping removes nothing in front. */
  lemma StripKeepsScheme(url: string)
    ensures StartsWith(url, Scheme) ==> StartsWith(Strip(url), Scheme) && Strip(url)[..4] == url[..4]
  {
    if StartsWith(url, Scheme) {
      assert !IsSpace(url[0]);
      assert LeadingSpace(url) == 0;
      var r := Strip(url);
      forall k | |r| <= k < |url| ensures IsSpace(url[k]) {
        assert url[k] == url[|r|..][k - |r|];
      }
      assert !IsSpace(url[0]) && !IsSpace(url[1]) && !IsSpace(url[2]) && !IsSpace(url[3]);
      assert |r| >= 4;
      assert r[..4] == url[..4];
    }
  }

  // ---------------------------------------------------------------------------
  // Properties of Normalize

  /** Normalising an already normalised entry changes nothing. */
  lemma NormalizeIdempotent(url: string)
    ensures Normalize(Normalize(url)) == Normalize(url)
  {
  }

  /** A list that went through the constructor once is left as it is by a second pass. */
  lemma NormalizeAllIdempotent(urls: seq<string>)
    ensures NormalizeAll(NormalizeAll(urls)) == NormalizeAll(urls)
  {
    var once := NormalizeAll(urls);
    forall i | 0 <= i < |urls| ensures NormalizeAll(once)[i] == once[i] {
      NormalizeIdempotent(urls[i]);
    }
  }

  /** An entry that begins with the literal keeps only its core, whatever trails it. */
  lemma NormalizeWithScheme(core: string, b: string)
    requires StartsWith(core, Scheme) && AllSpace(b)
    requires !IsSpace(core[|core| - 1])
    ensures Normalize(core + b) == core
  {
    assert (core + b)[..4] == core[..4];
    StripUnique([], core, b);
    assert [] + core + b == core + b;
  }

  /** An entry that does not begin with the literal gets the prefix in front of its core. */
  lemma NormalizeWithoutScheme(a: string, core: string, b: string)
    requires AllSpace(a) && AllSpace(b)
    requires core == [] || (!IsSpace(core[0]) && !IsSpace(core[|core| - 1]))
    requires !StartsWith(a + core + b, Scheme)
    ensures Normalize(a + core + b) == DefaultPrefix + core
  {
    StripUnique(a, core, b);
  }

  /**
   * The test looks at the unstripped entry: one leading blank is enough for a prefix,
   * even in front of an entry that already begins with "http".
   */
  lemma LeadingBlankGetsPrefixed(core: string)
    requires core != [] && !IsSpace(core[0]) && !IsSpace(core[|core| - 1])
    ensures Normalize(" " + core) == DefaultPrefix + core
  {
    assert (" " + core)[0] == ' ';
    assert " " + core == " " + core + "";
    NormalizeWithoutScheme(" ", core, "");
  }
}

/** The three entries that show where the prefix test looks. */
module UrlExamples {

  import opened Urls

  /** "https://a" is left unprefixed. */
  lemma HttpsExample()
    ensures Normalize("https://a") == "https://a"
  {
    NormalizeWithScheme("https://a", "");
    assert "https://a" + "" == "https://a";
  }

  /** The test is the bare literal "http", not a scheme: "httpbin.org" is left unprefixed. */
  lemma HttpbinExample()
    ensures Normalize("httpbin.org") == "httpbin.org"
  {
    NormalizeWithScheme("httpbin.org", "");
    assert "httpbin.org" + "" == "httpbin.org";
  }

  /** " http://a" becomes "http://" + "http://a". */
  lemma LeadingBlankExample()
    ensures Normalize(" http://a") == DefaultPrefix + "http://a"
  {
    var core := "http://a";
    assert !IsSpace(core[0]) && !IsSpace(core[|core| - 1]);
    assert " http://a" == " " + core;
    LeadingBlankGetsPrefixed(core);
  }

}
