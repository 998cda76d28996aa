/**
 * The lexical features of the training-time feature extractor: character counts, the
 * missing-https flag, the reciprocal URL length, the path level, the query length, the
 * IP-address prefix test, sensitive-word counts, the capital-letter flag and the brand flag.
 */
module UrlFeatures {
  import opened Counting
  import opened Text
  import opened HostFeatures

  /**
   * `count_characters(char, string)`, that is `string.count(char)`: for a one-character `char`
   * the number of times it occurs.
   */
  function CountCharacters(ch: string, s: string): (n: nat)
    ensures n > 0 <==> Occurs(s, ch)
    ensures |ch| == 1 ==> n == multiset(s)[ch[0]]
  {
    SingleCharacterCount(ch, s);
    CountWord(s, ch)
  }

  lemma SingleCharacterCount(ch: string, s: string)
    ensures |ch| == 1 ==> CountWord(s, ch) == multiset(s)[ch[0]]
  {
    if |ch| == 1 {
      CountWordChar(s, ch[0]);
      assert ch == [ch[0]];
    }
  }

  /** The character-count features: dots, dashes, underscores, percent signs, "?" and "&". */
  datatype CharacterCounts = CharacterCounts(
    dots: nat, dashes: nat, underscores: nat, percents: nat, questionMarks: nat, ampersands: nat)

  function CountsOf(url: string): (c: CharacterCounts)
    ensures c.dots == multiset(url)['.'] && c.dashes == multiset(url)['-']
    ensures c.underscores == multiset(url)['_'] && c.percents == multiset(url)['%']
    ensures c.questionMarks == multiset(url)['?'] && c.ampersands == multiset(url)['&']
  {
    CharacterCounts(
      CountCharacters(".", url), CountCharacters("-", url), CountCharacters("_", url),
      CountCharacters("%", url), CountCharacters("?", url), CountCharacters("&", url))
  }

  const HttpsScheme: string := "https://"

  /**
   * `extract_no_https_feature(url)`: 0 when the lower-cased URL starts with "https://", 1
   * otherwise.
   */
  function NoHttps(url: string): (r: nat)
    ensures r == 0 || r == 1
    ensures r == 0 <==> |url| >= 8 && forall k :: 0 <= k < 8 ==> Lower(url[k]) == HttpsScheme[k]
  {
    var low := LowerStr(url);
    if StartsWith(low, HttpsScheme) then
      assert forall k :: 0 <= k < 8 ==> low[..8][k] == low[k];
      0
    else
      1
  }

  /** The scheme is compared without regard to case. */
  lemma NoHttpsIgnoresCase(url: string)
    ensures NoHttps(LowerStr(url)) == NoHttps(url)
  {
    LowerIdempotent(url);
  }

  /** "HTTPS://" in capitals counts as https. */
  lemma CapitalSchemeIsHttps(rest: string)
    ensures NoHttps("HTTPS://" + rest) == 0
  {
    var url := "HTTPS://" + rest;
    assert forall k :: 0 <= k < 8 ==> url[k] == "HTTPS://"[k];
  }

  /** A plain "http://" URL, or one shorter than "https://", is flagged. */
  lemma PlainHttpFlagged(rest: string)
    ensures NoHttps("http://" + rest) == 1
  {
    var url := "http://" + rest;
    assert Lower(url[4]) == ':';
  }

  lemma ShortUrlFlagged(url: string)
    requires |url| < 8
    ensures NoHttps(url) == 1
  {
  }

  /** `calculate_url_length_rt(url)`: the reciprocal of one more than the length. */
  function UrlLengthRt(url: string): (r: real)
    ensures 0.0 < r <= 1.0
    ensures r * (|url| + 1) as real == 1.0
    ensures r == 1.0 <==> |url| == 0
  {
    1.0 / ((|url| + 1) as real)
  }

  /** A longer URL gets a strictly smaller value. */
  lemma UrlLengthRtDecreasing(u: string, v: string)
    requires |u| < |v|
    ensures UrlLengthRt(v) < UrlLengthRt(u)
  {
    var a := (|u| + 1) as real;
    var b := (|v| + 1) as real;
    assert 1.0 / a - 1.0 / b == (b - a) / (a * b);
    assert a * b > 0.0;
  }

  /** `len(re.split(r'[\\/]', url)) - 1`: the number of slashes and backslashes. */
  function PathLevel(url: string): (n: nat)
    ensures n == multiset(url)['/'] + multiset(url)['\\']
  {
    CountInPair(url, '/', '\\');
    |Fields(url, {'/', '\\'})| - 1
  }

  /**
   * `len(url.split('?')[-1]) if '?' in url else 0`: the length of the text after the last
   * question mark.
   */
  function QueryLength(url: string): (n: nat)
    ensures '?' !in url ==> n == 0
    ensures '?' in url ==> exists i :: 0 <= i < |url| && url[i] == '?' && n == |url| - i - 1 &&
                                        Avoids(url[i + 1..], {'?'})
  {
    if '?' in url then
      var fs := Fields(url, {'?'});
      var last := fs[|fs| - 1];
      var i := |url| - |last| - 1;
      assert |last| < |url| by {
        AvoidsMissing(last, '?');
      }
      assert url[i + 1..] == last;
      |last|
    else
      0
  }

  lemma AvoidsMissing(s: string, c: char)
    ensures Avoids(s, {c}) ==> c !in s
  {
  }

  /**
   * `(\d{1,3}\.){n}\d` matches at the start of `s`. Each group is the whole run of digits before
   * its dot, so the choice of group length is the only backtracking.
   */
  function LeadingGroups(s: string, n: nat): bool
    decreases n
  {
    if n == 0 then |s| > 0 && IsDigit(s[0])
    else exists k :: 1 <= k <= 3 && k < |s| && DigitGroup(s[..k]) && s[k] == '.' && LeadingGroups(s[k + 1..], n - 1)
  }

  /**
   * The IpAddress feature, `re.match(r'(\d{1,3}\.){3}\d{1,3}', url)`: the URL begins with three
   * digit groups each followed by a dot, and then a digit. There is no end anchor and no scheme
   * is skipped.
   */
  function IpAddressFeature(url: string): (r: nat)
    ensures r == 0 || r == 1
    ensures r == 1 ==> |url| > 0 && IsDigit(url[0])
  {
    if LeadingGroups(url, 3) then
      LeadingDigit(url, 3);
      1
    else
      0
  }

  lemma LeadingDigit(s: string, n: nat)
    requires LeadingGroups(s, n)
    ensures |s| > 0 && IsDigit(s[0])
  {
    if n > 0 {
      var k :| 1 <= k <= 3 && k < |s| && DigitGroup(s[..k]) && s[k] == '.' && LeadingGroups(s[k + 1..], n - 1);
      assert s[..k][0] == s[0];
    }
  }

  /** A URL that starts with its scheme, such as "http://1.2.3.4", is never flagged. */
  lemma SchemeFirstNotFlagged(rest: string)
    ensures IpAddressFeature("http://" + rest) == 0
  {
  }

  /**
   * Four digit groups at the front are flagged, whatever follows: the same groups that make a
   * host an IP address.
   */
  lemma QuadPrefixFlagged(a: string, b: string, c: string, d: string, rest: string)
    requires DigitGroup(a) && DigitGroup(b) && DigitGroup(c) && DigitGroup(d)
    ensures IpAddressFeature(a + "." + b + "." + c + "." + d + rest) == 1
  {
    var t1 := b + "." + (c + "." + (d + rest));
    TwoGroups(b, c, d, rest);
    Regroup(a, b, c, d, rest);
    FirstGroup(a, t1);
  }

  lemma Regroup(a: string, b: string, c: string, d: string, rest: string)
    ensures a + "." + b + "." + c + "." + d + rest == a + "." + (b + "." + (c + "." + (d + rest)))
  {
  }

  lemma FirstGroup(a: string, t: string)
    requires DigitGroup(a) && LeadingGroups(t, 2)
    ensures IpAddressFeature(a + "." + t) == 1
  {
    GroupThenDot(a, t, 3);
    GroupsFlagged(a + "." + t);
  }

  lemma TwoGroups(b: string, c: string, d: string, rest: string)
    requires DigitGroup(b) && DigitGroup(c) && DigitGroup(d)
    ensures LeadingGroups(b + "." + (c + "." + (d + rest)), 2)
  {
    var t3 := d + rest;
    assert t3[0] == d[0];
    assert LeadingGroups(t3, 0);
    GroupThenDot(c, t3, 1);
    GroupThenDot(b, c + "." + t3, 2);
  }

  lemma GroupsFlagged(s: string)
    requires LeadingGroups(s, 3)
    ensures IpAddressFeature(s) == 1
  {
  }

  lemma GroupThenDot(g: string, t: string, n: nat)
    requires n > 0 && DigitGroup(g) && LeadingGroups(t, n - 1)
    ensures LeadingGroups(g + "." + t, n)
  {
    var s := g + "." + t;
    var k := |g|;
    assert s[..k] == g && s[k] == '.' && s[k + 1..] == t;
  }

  /** The three words counted by the NumSensitiveWords feature. */
  const CountedWords: seq<string> := ["secure", "login", "account"]

  /** The occurrences of each word of `ws` in `s`, added up. */
  function TotalCount(ws: seq<string>, s: string): (n: nat)
    ensures n > 0 <==> exists k :: 0 <= k < |ws| && Occurs(s, ws[k])
  {
    if |ws| == 0 then 0
    else
      var rest := TotalCount(ws[1..], s);
      assert forall k :: 1 <= k < |ws| ==> ws[k] == ws[1..][k - 1];
      CountWord(s, ws[0]) + rest
  }

  /**
   * NumSensitiveWords: the occurrences of "secure", "login" and "account" in the lower-cased URL,
   * each word counted without overlap.
   */
  function NumSensitiveWords(url: string): (n: nat)
    ensures n > 0 <==> exists k :: 0 <= k < |CountedWords| && Occurs(LowerStr(url), CountedWords[k])
    ensures n == Positions(LowerStr(url), "secure") + Positions(LowerStr(url), "login")
                 + Positions(LowerStr(url), "account")
  {
    var l := LowerStr(url);
    CountWordIsPositions(l, "secure");
    CountWordIsPositions(l, "login");
    CountWordIsPositions(l, "account");
    var tail: seq<string> := ["account"];
    assert tail[1..] == [] && TotalCount(tail, l) == CountWord(l, "account");
    var rest: seq<string> := ["login", "account"];
    assert rest[1..] == tail && TotalCount(rest, l) == CountWord(l, "login") + TotalCount(tail, l);
    assert CountedWords[1..] == rest;
    TotalCount(CountedWords, l)
  }

  /**
   * The two extractors agree on whether a URL is suspicious at all: a URL with a counted word
   * also has one of the six keywords of `count_sensitive_words`.
   */
  lemma SensitiveCountsAgree(url: string)
    ensures NumSensitiveWords(url) > 0 ==> CountSensitiveWords(url) > 0
  {
    if NumSensitiveWords(url) > 0 {
      var k :| 0 <= k < |CountedWords| && Occurs(LowerStr(url), CountedWords[k]);
      var w := CountedWords[k];
      assert w in SensitiveKeywords;
      var present := set v | v in SensitiveKeywords && Occurs(LowerStr(url), v);
      assert w in present;
      assert present == (present - {w}) + {w};
    }
  }

  /** The RandomString feature: 1 when some letter is a capital. */
  function CapitalFlag(url: string): (r: nat)
    ensures r == 0 || r == 1
    ensures r == 1 <==> exists i :: 0 <= i < |url| && IsUpper(url[i])
  {
    if |url| == 0 then 0
    else if IsUpper(url[0]) then 1
    else
      assert forall i :: 1 <= i < |url| ==> url[i] == url[1..][i - 1];
      CapitalFlag(url[1..])
  }

  /** Lower-casing a URL always clears the flag. */
  lemma LoweredHasNoCapital(url: string)
    ensures CapitalFlag(LowerStr(url)) == 0
  {
  }

  /** The EmbeddedBrandName feature: "paypal" or "google" in the lower-cased URL. */
  function BrandFlag(url: string): (r: nat)
    ensures r == 0 || r == 1
    ensures r == 1 <==> Occurs(LowerStr(url), "paypal") || Occurs(LowerStr(url), "google")
  {
    var low := LowerStr(url);
    if Contains(low, "paypal") || Contains(low, "google") then 1 else 0
  }

  /**
   * Both brands are among the five of `is_embedded_brand_name`, so a flagged URL is flagged
   * there too unless that check exempts it for containing "https" and "www".
   */
  lemma BrandFlagsAgree(url: string)
    ensures BrandFlag(url) == 1 ==> MentionsBrand(LowerStr(url))
    ensures BrandFlag(url) == 1 ==> IsEmbeddedBrandName(url) || (Occurs(url, "https") && Occurs(url, "www"))
  {
    var low := LowerStr(url);
    if Contains(low, "paypal") {
      assert Brands[2] == "paypal";
    }
    if Contains(low, "google") {
      assert Brands[0] == "google";
    }
  }
}
