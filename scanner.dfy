/** The fallback token scanner: `RE_SECRET`, `RE_SESSION` and `extract_from_html`.
    Each pattern is `key \s* [:=] \s* ['"] ([A-Za-z0-9_\-]{6,300}) ['"]`, searched
    case-sensitively and without word boundaries; only the first match is kept. */
module Scanner {
  import opened Common

  const SecretKey: string := "secret_key"
  const SessionId: string := "SessionID"
  const MinToken: nat := 6
  const MaxToken: nat := 300

  /** Python's `\s` on `str` patterns: the code points for which `str.isspace()` holds. */
  predicate IsSpace(c: char)
  {
    var n := c as int;
    (9 <= n <= 13) || (28 <= n <= 32) || n == 0x85 || n == 0xA0 || n == 0x1680
    || (0x2000 <= n <= 0x200A) || n == 0x2028 || n == 0x2029 || n == 0x202F
    || n == 0x205F || n == 0x3000
  }

  /** The class `[:=]`. */
  predicate IsSeparator(c: char)
  {
    c == ':' || c == '='
  }

  /** The class `['"]`. */
  predicate IsQuote(c: char)
  {
    c == '\'' || c == '"'
  }

  /** The class `[A-Za-z0-9_\-]`. */
  predicate IsTokenChar(c: char)
  {
    ('A' <= c <= 'Z') || ('a' <= c <= 'z') || ('0' <= c <= '9') || c == '_' || c == '-'
  }

  /** What the capture group can hold: 6 to 300 token characters. */
  predicate IsToken(t: string)
  {
    MinToken <= |t| <= MaxToken && forall k :: 0 <= k < |t| ==> IsTokenChar(t[k])
  }

  /** The two classes the pattern repeats: `\s` and the token class. */
  datatype CharClass = Spaces | TokenChars

  predicate InClass(c: char, cls: CharClass)
  {
    match cls
    case Spaces => IsSpace(c)
    case TokenChars => IsTokenChar(c)
  }

  /** Every character of `s[lo..hi]` is in class `cls`. */
  predicate All(s: string, lo: nat, hi: nat, cls: CharClass)
    requires lo <= hi <= |s|
  {
    forall k :: lo <= k < hi ==> InClass(s[k], cls)
  }

  /** What follows the key that ends at `start`: spaces up to the separator at `p`,
      spaces up to the opening quote at `q`, then `tok`, then a closing quote. */
  ghost predicate MatchShape(s: string, start: nat, p: nat, q: nat, tok: string)
  {
    && start <= p < q
    && q + |tok| + 1 < |s|
    && All(s, start, p, Spaces)
    && IsSeparator(s[p])
    && All(s, p + 1, q, Spaces)
    && IsQuote(s[q])
    && s[q + 1..q + 1 + |tok|] == tok
    && IsToken(tok)
    && IsQuote(s[q + 1 + |tok|])
  }

  /** The regular expression for `key` matches `s` at index `i` with group `tok`,
      by any of the ways its quantifiers could be resolved. */
  ghost predicate IsMatch(s: string, key: string, i: nat, tok: string)
  {
    && i + |key| <= |s|
    && s[i..i + |key|] == key
    && HasShape(s, i + |key|, tok)
  }

  /** Some separator and opening quote positions complete a match after `start`. */
  ghost predicate HasShape(s: string, start: nat, tok: string)
  {
    exists p: nat, q: nat :: MatchShape(s, start, p, q, tok)
  }

  /** The end of the run of characters of class `cls` that starts at `j`. */
  function SkipWhile(s: string, j: nat, cls: CharClass): (k: nat)
    requires j <= |s|
    decreases |s| - j
    ensures j <= k <= |s|
    ensures All(s, j, k, cls)
    ensures k < |s| ==> !InClass(s[k], cls)
  {
    if j < |s| && InClass(s[j], cls) then SkipWhile(s, j + 1, cls) else j
  }

  /** The scanner at one index: the greedy reading of the pattern, which is the only
      one that can succeed because spaces, separators, quotes and token characters
      are disjoint classes. */
  function MatchAt(s: string, key: string, i: nat): Option<string>
  {
    if i + |key| > |s| || s[i..i + |key|] != key then None
    else
      var p := SkipWhile(s, i + |key|, Spaces);
      if p == |s| || !IsSeparator(s[p]) then None
      else
        var q := SkipWhile(s, p + 1, Spaces);
        if q == |s| || !IsQuote(s[q]) then None
        else
          var e := SkipWhile(s, q + 1, TokenChars);
          if e == |s| || !IsQuote(s[e]) || e - (q + 1) < MinToken || e - (q + 1) > MaxToken then None
          else Some(s[q + 1..e])
  }

  /** Where a match starts and what its group holds. */
  datatype Match = Match(pos: nat, token: string)

  /** `re.search` from index `i`: the leftmost index at or after `i` where the scanner matches. */
  function FindFrom(s: string, key: string, i: nat): Option<Match>
    decreases |s| - i
  {
    if i > |s| then None
    else match MatchAt(s, key, i)
      case Some(t) => Some(Match(i, t))
      case None => if i == |s| then None else FindFrom(s, key, i + 1)
  }

  /** The group of the first match of the pattern for `key`, or None. */
  function FirstToken(s: string, key: string): Option<string>
  {
    match FindFrom(s, key, 0)
    case Some(m) => Some(m.token)
    case None => None
  }

  /** `extract_from_html`'s result: the first `secret_key` token and the first
      `SessionID` token, each found by its own scan. */
  datatype Heuristics = Heuristics(secretKey: Option<string>, sessionId: Option<string>)

  function ExtractFromHtml(html: string): Heuristics
  {
    Heuristics(FirstToken(html, SecretKey), FirstToken(html, SessionId))
  }

  /** The character classes the pattern strings together are pairwise disjoint. */
  lemma ClassesDisjoint(c: char)
    ensures IsSeparator(c) ==> !IsSpace(c) && !IsTokenChar(c)
    ensures IsQuote(c) ==> !IsSpace(c) && !IsTokenChar(c)
  {
  }

  /** A run of class `cls` from `j` that stops at a character outside `cls` ends
      exactly where `SkipWhile` stops. */
  lemma RunEnd(s: string, j: nat, k: nat, cls: CharClass)
    requires j <= k < |s|
    requires All(s, j, k, cls) && !InClass(s[k], cls)
    ensures SkipWhile(s, j, cls) == k
  {
  }

  /** A token the scanner finds at `i` is a match of the pattern there. */
  lemma MatchAtSound(s: string, key: string, i: nat, tok: string)
    requires MatchAt(s, key, i) == Some(tok)
    ensures IsMatch(s, key, i, tok)
  {
    var p := SkipWhile(s, i + |key|, Spaces);
    var q := SkipWhile(s, p + 1, Spaces);
    var e := SkipWhile(s, q + 1, TokenChars);
    assert e == q + 1 + |tok|;
    assert MatchShape(s, i + |key|, p, q, tok);
  }

  /** The scanner's result when each run ends where it must. */
  lemma MatchAtGreedy(s: string, key: string, i: nat, p: nat, q: nat, e: nat)
    requires i + |key| <= |s| && s[i..i + |key|] == key
    requires i + |key| <= p < |s| && SkipWhile(s, i + |key|, Spaces) == p && IsSeparator(s[p])
    requires p < q < |s| && SkipWhile(s, p + 1, Spaces) == q && IsQuote(s[q])
    requires q < e < |s| && SkipWhile(s, q + 1, TokenChars) == e && IsQuote(s[e])
    requires MinToken <= e - (q + 1) <= MaxToken
    ensures MatchAt(s, key, i) == Some(s[q + 1..e])
  {
  }

  /** Any match of the pattern at `i` is the one the scanner finds: the classes the
      pattern strings together are disjoint, so every quantifier has one reading. */
  lemma MatchAtComplete(s: string, key: string, i: nat, tok: string)
    requires IsMatch(s, key, i, tok)
    ensures MatchAt(s, key, i) == Some(tok)
  {
    var start := i + |key|;
    var p: nat, q: nat :| MatchShape(s, start, p, q, tok);
    var e := q + 1 + |tok|;
    assert s[q + 1..e] == tok && IsQuote(s[e]) && e - (q + 1) == |tok|;
    assert SkipWhile(s, start, Spaces) == p by {
      ClassesDisjoint(s[p]);
      RunEnd(s, start, p, Spaces);
    }
    assert SkipWhile(s, p + 1, Spaces) == q by {
      ClassesDisjoint(s[q]);
      RunEnd(s, p + 1, q, Spaces);
    }
    assert SkipWhile(s, q + 1, TokenChars) == e by {
      forall k | q + 1 <= k < e
        ensures IsTokenChar(s[k])
      {
        assert s[k] == tok[k - (q + 1)];
      }
      ClassesDisjoint(s[e]);
      RunEnd(s, q + 1, e, TokenChars);
    }
    MatchAtGreedy(s, key, i, p, q, e);
  }

  /** The scanner finds a token at `i` exactly when the pattern matches there,
      and the token it finds is the pattern's group. */
  lemma MatchAtCorrect(s: string, key: string, i: nat, tok: string)
    ensures MatchAt(s, key, i) == Some(tok) <==> IsMatch(s, key, i, tok)
  {
    if MatchAt(s, key, i) == Some(tok) {
      MatchAtSound(s, key, i, tok);
    }
    if IsMatch(s, key, i, tok) {
      MatchAtComplete(s, key, i, tok);
    }
  }

  /** The search finds the leftmost match at or after `i`, and finds none only when
      there is none. */
  lemma {:induction false} FindFromLeftmost(s: string, key: string, i: nat)
    ensures FindFrom(s, key, i).Some? ==>
              && i <= FindFrom(s, key, i).value.pos
              && IsMatch(s, key, FindFrom(s, key, i).value.pos, FindFrom(s, key, i).value.token)
    ensures forall j: nat, t :: i <= j && (FindFrom(s, key, i).Some? ==> j < FindFrom(s, key, i).value.pos)
              ==> !IsMatch(s, key, j, t)
    decreases |s| - i
  {
    var r := FindFrom(s, key, i);
    if i <= |s| {
      match MatchAt(s, key, i)
      case Some(t) =>
        assert r == Some(Match(i, t));
        MatchAtSound(s, key, i, t);
      case None =>
        forall t | IsMatch(s, key, i, t)
          ensures false
        {
          MatchAtComplete(s, key, i, t);
        }
        if i < |s| {
          assert r == FindFrom(s, key, i + 1);
          FindFromLeftmost(s, key, i + 1);
        } else {
          forall j: nat, t | i < j
            ensures !IsMatch(s, key, j, t)
          {
          }
        }
    }
  }

  /** Every value `extract_from_html` returns is None or a 6 to 300 character token
      of letters, digits, `_` and `-`. */
  lemma ExtractFromHtmlTokens(html: string)
    ensures ExtractFromHtml(html).secretKey.Some? ==> IsToken(ExtractFromHtml(html).secretKey.value)
    ensures ExtractFromHtml(html).sessionId.Some? ==> IsToken(ExtractFromHtml(html).sessionId.value)
  {
    FindFromLeftmost(html, SecretKey, 0);
    FindFromLeftmost(html, SessionId, 0);
  }

  /** `FirstToken` is the group of the leftmost match, and None when nothing matches. */
  lemma FirstTokenLeftmost(s: string, key: string)
    ensures FirstToken(s, key).None? <==> forall j: nat, t :: !IsMatch(s, key, j, t)
    ensures FirstToken(s, key).Some? ==>
              exists i: nat :: IsMatch(s, key, i, FirstToken(s, key).value)
                && forall j: nat, t :: j < i ==> !IsMatch(s, key, j, t)
  {
    FindFromLeftmost(s, key, 0);
    if FindFrom(s, key, 0).Some? {
      var m := FindFrom(s, key, 0).value;
      assert IsMatch(s, key, m.pos, m.token);
    }
  }

  /** Each field of `extract_from_html`'s result depends only on its own pattern:
      it is the leftmost match's group of that pattern, or None when it has none. */
  lemma ExtractFromHtmlLeftmost(html: string)
    ensures ExtractFromHtml(html).secretKey.None? <==> forall j: nat, t :: !IsMatch(html, SecretKey, j, t)
    ensures ExtractFromHtml(html).sessionId.None? <==> forall j: nat, t :: !IsMatch(html, SessionId, j, t)
    ensures ExtractFromHtml(html).secretKey.Some? ==>
              exists i: nat :: IsMatch(html, SecretKey, i, ExtractFromHtml(html).secretKey.value)
                && forall j: nat, t :: j < i ==> !IsMatch(html, SecretKey, j, t)
    ensures ExtractFromHtml(html).sessionId.Some? ==>
              exists i: nat :: IsMatch(html, SessionId, i, ExtractFromHtml(html).sessionId.value)
                && forall j: nat, t :: j < i ==> !IsMatch(html, SessionId, j, t)
  {
    FirstTokenLeftmost(html, SecretKey);
    FirstTokenLeftmost(html, SessionId);
  }

  /** Where the text does not start with the key, the search moves on. */
  lemma NoKeyAt(s: string, key: string, i: nat)
    requires i < |s| && |key| > 0 && s[i] != key[0]
    ensures FindFrom(s, key, i) == FindFrom(s, key, i + 1)
  {
    if i + |key| <= |s| {
      assert s[i..i + |key|][0] == s[i];
    }
  }

  /** Where no character in `s[i..n]` starts the key, the search moves on to `n`. */
  lemma {:induction false} NoKeyBefore(s: string, key: string, i: nat, n: nat)
    requires i <= n <= |s| && |key| > 0
    requires forall k :: i <= k < n ==> s[k] != key[0]
    ensures FindFrom(s, key, i) == FindFrom(s, key, n)
    decreases n - i
  {
    if i < n {
      NoKeyAt(s, key, i);
      NoKeyBefore(s, key, i + 1, n);
    }
  }

  /** `secret_key: "xyz789"` in the markup yields the token `xyz789`. */
  lemma SecretKeyExample()
    ensures ExtractFromHtml("secret_key: \"xyz789\"").secretKey == Some("xyz789")
  {
    var s := "secret_key: \"xyz789\"";
    assert s[10] == ':' && s[11] == ' ' && s[12] == '"' && s[19] == '"';
    assert s[13..19] == "xyz789";
    assert IsToken("xyz789");
    assert MatchShape(s, 10, 10, 12, "xyz789");
    MatchAtCorrect(s, SecretKey, 0, "xyz789");
  }

  /** There is no word boundary: `my_secret_key='abcdef"` matches at index 3, and the
      closing quote need not be the opening one. */
  lemma NoWordBoundaryExample(s: string)
    requires s == "my_" + SecretKey + "='abcdef\""
    ensures ExtractFromHtml(s).secretKey == Some("abcdef")
  {
    MatchInsideWord(s);
    SkipToKey(s);
  }

  lemma MatchInsideWord(s: string)
    requires s == "my_" + SecretKey + "='abcdef\""
    ensures FindFrom(s, SecretKey, 3) == Some(Match(3, "abcdef"))
  {
    assert s[3..13] == SecretKey;
    assert s[13] == '=' && s[14] == '\'' && s[21] == '"';
    assert s[15..21] == "abcdef";
    assert IsToken("abcdef");
    assert MatchShape(s, 13, 13, 14, "abcdef");
    MatchAtComplete(s, SecretKey, 3, "abcdef");
  }

  lemma SkipToKey(s: string)
    requires s == "my_" + SecretKey + "='abcdef\""
    ensures FindFrom(s, SecretKey, 0) == FindFrom(s, SecretKey, 3)
  {
    assert s[0] == 'm' && s[1] == 'y' && s[2] == '_' && SecretKey[0] == 's';
    NoKeyBefore(s, SecretKey, 0, 3);
  }
}
