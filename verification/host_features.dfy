/**
 * The lexical hostname and URL checks of the model-serving feature vector: a long
 * letters-and-digits run, an IP-looking host, sensitive keywords, brand names and the number of
 * subdomain levels.
 */
module HostFeatures {
  import opened Counting
  import opened Text

  /** How long a run `[a-zA-Z0-9]{10,}` needs to be. */
  const RunLength: nat := 10

  /** Positions `i .. i+n-1` of `s` exist and are all letters or digits. */
  predicate AlnumRun(s: string, i: int, n: nat) {
    0 <= i && i + n <= |s| && forall k :: i <= k < i + n ==> IsAlnum(s[k])
  }

  /** Some run of `n` letters or digits ends at or before position `end`. */
  ghost predicate RunBefore(s: string, end: int, n: nat) {
    exists i :: AlnumRun(s, i, n) && i + n <= end
  }

  /**
   * `is_random_string(hostname)`: `re.search(r'[a-zA-Z0-9]{10,}', hostname)` succeeds, that is
   * some ten consecutive characters are ASCII letters or digits. The scan keeps the length of the
   * run of such characters ending at the current position.
   */
  method IsRandomString(h: string) returns (b: bool)
    ensures b <==> RunBefore(h, |h|, RunLength)
  {
    b := false;
    var run := 0;
    var i := 0;
    while i < |h|
      invariant 0 <= run <= i <= |h|
      invariant AlnumRun(h, i - run, run)
      invariant i - run > 0 ==> !IsAlnum(h[i - run - 1])
      invariant b <==> RunBefore(h, i, RunLength)
    {
      if IsAlnum(h[i]) {
        run := run + 1;
      } else {
        run := 0;
      }
      RunStep(h, i, run, RunLength);
      if run >= RunLength {
        b := true;
      }
      i := i + 1;
    }
  }

  /**
   * With `r` the longest run ending just after position `i`, a run of `n` ends by `i + 1`
   * exactly when one ended by `i` or the current run is long enough.
   */
  lemma RunStep(h: string, i: nat, r: nat, n: nat)
    requires i < |h| && r <= i + 1 && AlnumRun(h, i + 1 - r, r)
    requires i + 1 - r > 0 ==> !IsAlnum(h[i - r])
    ensures RunBefore(h, i + 1, n) <==> RunBefore(h, i, n) || r >= n
  {
    if r >= n {
      assert AlnumRun(h, i + 1 - n, n);
    }
    forall j | AlnumRun(h, j, n) && j + n <= i + 1
      ensures j + n <= i || r >= n
    {
      if j + n == i + 1 && r < n {
        RunHas(h, j, n, i - r);
        assert false;
      }
    }
  }

  lemma RunHas(h: string, j: int, n: nat, k: int)
    ensures AlnumRun(h, j, n) && j <= k < j + n ==> IsAlnum(h[k])
  {
  }

  /** Appending text never removes a run, so a random-looking host stays random-looking. */
  lemma RandomStringMonotone(s: string, t: string)
    ensures RunBefore(s, |s|, RunLength) ==> RunBefore(s + t, |s + t|, RunLength)
  {
    if RunBefore(s, |s|, RunLength) {
      var i :| AlnumRun(s, i, RunLength) && i + RunLength <= |s|;
      assert AlnumRun(s + t, i, RunLength);
    }
  }

  /** `\d{1,3}`: one to three ASCII digits. */
  predicate DigitGroup(g: string) {
    1 <= |g| <= 3 && forall k :: 0 <= k < |g| ==> IsDigit(g[k])
  }

  /** `\d{1,3}(\.\d{1,3}){3}` matching the whole text: four digit groups between three dots. */
  predicate DottedQuad(s: string) {
    var fs := Fields(s, {'.'});
    |fs| == 4 && forall k :: 0 <= k < 4 ==> DigitGroup(fs[k])
  }

  /** `[a-fA-F0-9:]+` matching the whole text. */
  predicate HexRun(s: string) {
    |s| > 0 && forall k :: 0 <= k < |s| ==> IsHexDigit(s[k]) || s[k] == ':'
  }

  /**
   * `re.match('^…$', s)` for a pattern that cannot match a newline: `$` also matches just
   * before a final newline.
   */
  predicate WholeMatch(s: string, pattern: string -> bool) {
    pattern(s) || (|s| > 0 && s[|s| - 1] == '\n' && pattern(s[..|s| - 1]))
  }

  /**
   * `is_ip_address(hostname)`: the text before the first colon is a dotted quad (with no range
   * check on the groups) or a non-empty run of hex digits. Either way it starts with a hex digit,
   * so in particular the empty host is rejected.
   */
  function IsIpAddress(h: string): (b: bool)
    ensures b ==> |h| > 0 && IsHexDigit(h[0])
  {
    var ip := Fields(h, {':'})[0];
    IpStartsWithHexDigit(ip);
    WholeMatch(ip, DottedQuad) || WholeMatch(ip, HexRun)
  }

  lemma IpStartsWithHexDigit(ip: string)
    requires Avoids(ip, {':'})
    ensures WholeMatch(ip, DottedQuad) || WholeMatch(ip, HexRun) ==> |ip| > 0 && IsHexDigit(ip[0])
  {
    var core := if |ip| > 0 && ip[|ip| - 1] == '\n' then ip[..|ip| - 1] else ip;
    if DottedQuad(ip) || (ip != core && DottedQuad(core)) {
      var t := if DottedQuad(ip) then ip else core;
      var g := Fields(t, {'.'})[0];
      assert g == t[..|g|] && DigitGroup(g);
      assert t[0] == g[0];
    }
  }

  /** A separator-free text is its own first field. */
  lemma FirstFieldWhole(h: string, c: char)
    requires c !in h
    ensures Fields(h, {c})[0] == h
  {
  }

  /** The first field of `h + [c] + rest` is `h` when `h` has no `c`. */
  lemma FirstFieldBefore(h: string, c: char, rest: string)
    requires c !in h
    ensures Fields(h + [c] + rest, {c})[0] == h
  {
    var s := h + [c] + rest;
    var f := Fields(s, {c})[0];
    assert s[|h|] == c;
    assert forall k :: 0 <= k < |h| ==> s[k] == h[k] && s[k] != c;
    assert f == s[..|f|];
    assert s[..|h|] == h;
  }

  /** A port after the host changes nothing: only the text before the first colon is looked at. */
  lemma PortIgnored(h: string, port: string)
    requires ':' !in h
    ensures IsIpAddress(h + ":" + port) == IsIpAddress(h)
  {
    FirstFieldBefore(h, ':', port);
    FirstFieldWhole(h, ':');
  }

  /** Any four groups of one to three digits are accepted; no group is checked against 255. */
  lemma DottedQuadAccepted(a: string, b: string, c: string, d: string)
    requires DigitGroup(a) && DigitGroup(b) && DigitGroup(c) && DigitGroup(d)
    ensures IsIpAddress(a + "." + b + "." + c + "." + d)
  {
    var s := a + "." + b + "." + c + "." + d;
    QuadFields(a, b, c, d);
    QuadNoColon(a, b, c, d);
    assert DottedQuad(s);
    assert WholeMatch(s, DottedQuad);
    IpWithoutPort(s);
  }

  /** Without a colon the whole host is matched. */
  lemma IpWithoutPort(h: string)
    requires ':' !in h
    ensures IsIpAddress(h) <==> WholeMatch(h, DottedQuad) || WholeMatch(h, HexRun)
  {
    FirstFieldWhole(h, ':');
  }

  lemma QuadFields(a: string, b: string, c: string, d: string)
    requires DigitGroup(a) && DigitGroup(b) && DigitGroup(c) && DigitGroup(d)
    ensures Fields(a + "." + b + "." + c + "." + d, {'.'}) == [a, b, c, d]
  {
    var fs := [a, b, c, d];
    JoinFour(a, b, c, d, '.');
    GroupAvoids(a);
    GroupAvoids(b);
    GroupAvoids(c);
    GroupAvoids(d);
    FieldsJoin(fs, '.');
  }

  lemma QuadNoColon(a: string, b: string, c: string, d: string)
    requires DigitGroup(a) && DigitGroup(b) && DigitGroup(c) && DigitGroup(d)
    ensures ':' !in a + "." + b + "." + c + "." + d
  {
    GroupAvoids(a);
    GroupAvoids(b);
    GroupAvoids(c);
    GroupAvoids(d);
  }

  lemma GroupAvoids(g: string)
    requires DigitGroup(g)
    ensures Avoids(g, {'.'}) && ':' !in g
  {
    assert forall k :: 0 <= k < |g| ==> g[k] != ':';
  }

  lemma JoinFour(a: string, b: string, c: string, d: string, sep: char)
    ensures Join([a, b, c, d], sep) == a + [sep] + b + [sep] + c + [sep] + d
  {
    assert [c, d][1..] == [d];
    assert Join([c, d], sep) == c + [sep] + d;
    assert [b, c, d][1..] == [c, d];
    assert Join([b, c, d], sep) == b + [sep] + (c + [sep] + d);
    assert [a, b, c, d][1..] == [b, c, d];
    assert Join([a, b, c, d], sep) == a + [sep] + (b + [sep] + (c + [sep] + d));
  }

  /** So a host of four three-digit nines is an IP address. */
  lemma OutOfRangeQuadAccepted(h: string)
    requires h == "999.999.999.999"
    ensures IsIpAddress(h)
  {
    var g := "999";
    assert DigitGroup(g);
    assert h == g + "." + g + "." + g + "." + g;
    DottedQuadAccepted(g, g, g, g);
  }

  /** A dotted quad followed by a port, as in "1.2.3.4:8080", is an IP address. */
  lemma QuadWithPortAccepted(h: string)
    requires h == "1.2.3.4:8080"
    ensures IsIpAddress(h)
  {
    var q := "1" + "." + "2" + "." + "3" + "." + "4";
    assert h == q + ":" + "8080";
    DottedQuadAccepted("1", "2", "3", "4");
    QuadNoColon("1", "2", "3", "4");
    PortIgnored(q, "8080");
  }

  /** Any non-empty string of hex digits is accepted, words such as "cafe" included. */
  lemma HexWordAccepted(s: string)
    requires |s| > 0 && forall k :: 0 <= k < |s| ==> IsHexDigit(s[k])
    ensures IsIpAddress(s)
  {
    assert ':' !in s by {
      assert forall k :: 0 <= k < |s| ==> s[k] != ':';
    }
    assert HexRun(s);
    assert WholeMatch(s, HexRun);
    IpWithoutPort(s);
  }

  lemma HexWordExample(h: string)
    requires h == "cafe"
    ensures IsIpAddress(h)
  {
    HexWordAccepted(h);
  }

  /** The empty host is not an IP address. */
  lemma EmptyHostRejected(h: string)
    requires h == ""
    ensures !IsIpAddress(h)
  {
  }

  /** The six keywords of `count_sensitive_words`. */
  const SensitiveKeywords: seq<string> := ["login", "account", "verify", "secure", "password", "update"]

  /** How many of the words `ws` occur in `s`, each counted once. */
  function CountPresent(ws: seq<string>, s: string): (n: nat)
    ensures n <= |ws|
  {
    if |ws| == 0 then 0 else (if Contains(s, ws[0]) then 1 else 0) + CountPresent(ws[1..], s)
  }

  /** For distinct words, that count is the size of the set of words that occur. */
  lemma {:induction false} CountPresentIsCard(ws: seq<string>, s: string)
    requires NoDup(ws)
    ensures CountPresent(ws, s) == |set w | w in ws && Occurs(s, w)|
  {
    if |ws| > 0 {
      var tail := ws[1..];
      CountPresentIsCard(tail, s);
      var all := set w | w in ws && Occurs(s, w);
      var rest := set w | w in tail && Occurs(s, w);
      assert ws[0] !in tail by {
        assert forall j :: 0 <= j < |tail| ==> tail[j] == ws[j + 1];
      }
      assert forall w :: w in ws <==> w == ws[0] || w in tail by {
        assert ws == [ws[0]] + tail;
      }
      if Occurs(s, ws[0]) {
        assert all == rest + {ws[0]};
      } else {
        assert all == rest;
      }
    }
  }

  /**
   * `count_sensitive_words(url)`: the number of distinct keywords that occur in the lower-cased
   * URL, between 0 and 6.
   */
  function CountSensitiveWords(url: string): (n: nat)
    ensures n <= 6
    ensures n == |set w | w in SensitiveKeywords && Occurs(LowerStr(url), w)|
  {
    CountPresentIsCard(SensitiveKeywords, LowerStr(url));
    CountPresent(SensitiveKeywords, LowerStr(url))
  }

  /** Upper and lower case are counted alike. */
  lemma SensitiveWordsIgnoreCase(url: string)
    ensures CountSensitiveWords(LowerStr(url)) == CountSensitiveWords(url)
  {
    LowerIdempotent(url);
  }

  /** Surrounding a URL with more text never lowers the count. */
  lemma SensitiveWordsMonotone(p: string, url: string, q: string)
    ensures CountSensitiveWords(url) <= CountSensitiveWords(p + url + q)
  {
    var lu := LowerStr(url);
    var big := LowerStr(p + url + q);
    LowerAppend(p + url, q);
    LowerAppend(p, url);
    assert big == LowerStr(p) + lu + LowerStr(q);
    var small := set w | w in SensitiveKeywords && Occurs(lu, w);
    var large := set w | w in SensitiveKeywords && Occurs(big, w);
    forall w | w in small ensures w in large {
      OccursWithin(lu, w, LowerStr(p), LowerStr(q));
    }
    assert small <= large;
    SubsetCard(small, large);
  }

  lemma SubsetCard(a: set<string>, b: set<string>)
    requires a <= b
    ensures |a| <= |b|
  {
    assert b == a + (b - a);
  }

  /** The five brands of the brand checks. */
  const Brands: seq<string> := ["google", "facebook", "paypal", "amazon", "microsoft"]

  /** One of the brands occurs in `s`. */
  predicate MentionsBrand(s: string) {
    exists k :: 0 <= k < |Brands| && Contains(s, Brands[k])
  }

  /**
   * `is_embedded_brand_name(url)`: false whenever "https" and "www" both occur, compared case by
   * case; otherwise whether a brand occurs in the lower-cased URL.
   */
  function IsEmbeddedBrandName(url: string): (b: bool)
    ensures b ==> MentionsBrand(LowerStr(url))
    ensures !b && MentionsBrand(LowerStr(url)) ==> Occurs(url, "https") && Occurs(url, "www")
    ensures Occurs(url, "https") && Occurs(url, "www") ==> !b
  {
    if Contains(url, "https") && Contains(url, "www") then false
    else MentionsBrand(LowerStr(url))
  }

  /**
   * The "https"/"www" exemption is case-sensitive while the brand search is not: a URL with no
   * lower-case letter, such as "HTTPS://WWW.PAYPAL.COM", is judged on its brands alone.
   */
  lemma CapitalUrlNeverExempt(url: string)
    requires forall i :: 0 <= i < |url| ==> !IsLower(url[i])
    ensures IsEmbeddedBrandName(url) == MentionsBrand(LowerStr(url))
  {
    assert 'h' !in url;
    MissingCharacter(url, "https", 0);
  }

  /**
   * For instance any all-capital URL naming PAYPAL, "HTTPS://WWW.PAYPAL.COM" included, is flagged
   * although its lower-case form would be exempt.
   */
  lemma CapitalPaypalFlagged(p: string, q: string)
    requires forall i :: 0 <= i < |p + "PAYPAL" + q| ==> !IsLower((p + "PAYPAL" + q)[i])
    ensures IsEmbeddedBrandName(p + "PAYPAL" + q)
  {
    var url := p + "PAYPAL" + q;
    CapitalUrlNeverExempt(url);
    LowerAppend(p + "PAYPAL", q);
    LowerAppend(p, "PAYPAL");
    var word := LowerStr("PAYPAL");
    assert word == "paypal";
    assert OccursAt(word, Brands[2], 0);
    OccursWithin(word, Brands[2], LowerStr(p), LowerStr(q));
  }

  /**
   * The brand flag computed inline by `extract_features` from the parsed scheme and hostname:
   * false for an "https" scheme with "www" in the host, otherwise whether a brand occurs in the
   * lower-cased host.
   */
  function InlineBrandFlag(scheme: string, host: string): (b: bool)
    ensures b ==> MentionsBrand(LowerStr(host))
    ensures scheme != "https" ==> (b <==> MentionsBrand(LowerStr(host)))
    ensures scheme == "https" ==> (b <==> !Occurs(host, "www") && MentionsBrand(LowerStr(host)))
  {
    if scheme == "https" && Contains(host, "www") then false
    else MentionsBrand(LowerStr(host))
  }

  /**
   * For an "https" URL the inline flag on the host and `is_embedded_brand_name` on the whole URL
   * agree: the prefix "https://" holds neither "www" nor any brand, and nothing can occur across
   * its final slash.
   */
  lemma InlineFlagMatchesUrlCheck(host: string)
    ensures InlineBrandFlag("https", host) == IsEmbeddedBrandName("https://" + host)
  {
    var prefix := "https://";
    var url := prefix + host;
    assert OccursAt(url, "https", 0);
    OccursAcrossBreak(prefix, host, "www");
    MissingCharacter(prefix, "www", 0);
    LowerAppend(prefix, host);
    LowerFixes(prefix);
    var lh := LowerStr(host);
    assert LowerStr(url) == prefix + lh;
    forall k | 0 <= k < |Brands| ensures Occurs(prefix + lh, Brands[k]) <==> Occurs(lh, Brands[k]) {
      OccursAcrossBreak(prefix, lh, Brands[k]);
      BrandNotInPrefix(k);
    }
    assert MentionsBrand(LowerStr(url)) <==> MentionsBrand(lh);
  }

  lemma BrandNotInPrefix(k: nat)
    requires k < |Brands|
    ensures !Occurs("https://", Brands[k])
  {
    var b := Brands[k];
    if k == 2 {
      MissingCharacter("https://", b, 2);
    } else {
      MissingCharacter("https://", b, 0);
    }
  }

  /** The host's dot count, the first feature of the vector. */
  function DotCount(host: string): (n: nat)
    ensures n == multiset(host)['.']
  {
    CountMultiplicity(host, '.');
    Count(host, '.')
  }

  /**
   * The subdomain feature, `dots - 1` when the host has more than one dot and 0 otherwise: the
   * number of dot-separated labels beyond the last two.
   */
  function SubdomainLevel(host: string): (n: nat)
    ensures n == if |Fields(host, {'.'})| > 2 then |Fields(host, {'.'})| - 2 else 0
  {
    CountInSingle(host, '.');
    var dots := DotCount(host);
    if dots > 1 then dots - 1 else 0
  }
}
