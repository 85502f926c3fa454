/** clean_markdown: the fixed chain of regular-expression substitutions that
    turns a scraped documentation page into the text that is chunked and
    embedded, followed by `str.strip()`. */
module Clean {
  import opened Text

  /** The substitutions of the chain, in the order they are applied. */
  datatype Pattern =
    | Copy               // \n?Copy\n?                 -> ""
    | Dismiss            // \n?Dismiss\n?              -> ""
    | ManagePreferences  // \n?Manage Preferences\n?   -> ""
    | Cookies            // We use cookies ... .*?(Privacy Policy|Cookie Policy)\.  (DOTALL) -> ""
    | Link               // \[([^\]]+)\]\([^)]+\)      -> \1
    | EscapedUnderscore  // \\_                        -> _
    | BlankLines         // \n{3,}                     -> \n\n

  /** The footer word a junk pattern removes. */
  function Word(p: Pattern): string
    requires p.Copy? || p.Dismiss? || p.ManagePreferences?
  {
    match p
    case Copy => "Copy"
    case Dismiss => "Dismiss"
    case ManagePreferences => "Manage Preferences"
  }

  /** One match at the start of the remaining text: how many characters it
      consumes and what replaces them. */
  datatype Hit = Hit(len: nat, out: string)

  const CookieIntro := "We use cookies and other similar technology"

  /** The number of newlines `s` starts with. */
  function Lead(s: string): (n: nat)
    ensures n <= |s|
    ensures forall k :: 0 <= k < n ==> s[k] == '\n'
    ensures n < |s| ==> s[n] != '\n'
  {
    if s != [] && s[0] == '\n' then 1 + Lead(s[1..]) else 0
  }

  /** `\n?w\n?` at the start of `s`. The optional newline in front is taken
      exactly when `w` follows it: `w` never starts with a newline, so without
      it the match would have to start at that newline and fails. */
  function JunkMatch(s: string, w: string): (r: Option<Hit>)
    requires w != [] && w[0] != '\n'
    ensures r.Some? ==> |w| <= r.value.len <= |s| && r.value.out == []
  {
    var a := if s != [] && s[0] == '\n' && StartsAt(s, 1, w) then 1 else 0;
    if !StartsAt(s, a, w) then None
    else Some(Hit(a + |w| + (if a + |w| < |s| && s[a + |w|] == '\n' then 1 else 0), []))
  }

  /** The end of the lazy `.*?(Privacy Policy|Cookie Policy)\.` started at
      `j`: the first position from which one of the two closing sentences
      follows (DOTALL lets `.` cross newlines). */
  function PolicyEnd(s: string, j: nat): (r: Option<nat>)
    requires j <= |s|
    ensures r.Some? ==> j + 14 <= r.value <= |s|
    decreases |s| - j
  {
    if StartsAt(s, j, "Privacy Policy.") then Some(j + 15)
    else if StartsAt(s, j, "Cookie Policy.") then Some(j + 14)
    else if j == |s| then None
    else PolicyEnd(s, j + 1)
  }

  /** `\[([^\]]+)\]\([^)]+\)` at the start of `s`. The bracketed text runs to
      the first `]` and the target to the first `)`: any other split would put
      a `]` inside `[^\]]+` or a `)` inside `[^)]+`. */
  function LinkMatch(s: string): (r: Option<Hit>)
    ensures r.Some? ==> 0 < |r.value.out| < r.value.len <= |s|
  {
    if s == [] || s[0] != '[' then None
    else
      var c := IndexFrom(s, ']', 1);
      if c == 1 || c + 1 >= |s| || s[c + 1] != '(' then None
      else
        var e := IndexFrom(s, ')', c + 2);
        if e == c + 2 || e == |s| then None else Some(Hit(e + 1, s[1..c]))
  }

  /** The match of `p` at the start of `s`, if any. Every match consumes at
      least one character and is replaced by fewer characters than it takes. */
  function MatchAt(p: Pattern, s: string): (r: Option<Hit>)
    ensures r.Some? ==> 0 < r.value.len <= |s| && |r.value.out| < r.value.len
  {
    match p
    case Copy => JunkMatch(s, Word(p))
    case Dismiss => JunkMatch(s, Word(p))
    case ManagePreferences => JunkMatch(s, Word(p))
    case Cookies =>
      if !StartsWith(s, CookieIntro) then None
      else match PolicyEnd(s, |CookieIntro|) {
        case None => None
        case Some(e) => Some(Hit(e, []))
      }
    case Link => LinkMatch(s)
    case EscapedUnderscore =>
      if |s| >= 2 && s[0] == '\\' && s[1] == '_' then Some(Hit(2, "_")) else None
    case BlankLines =>
      var n := Lead(s);
      if n >= 3 then Some(Hit(n, "\n\n")) else None
  }

  /** `re.sub(p, repl, s)`: scanning left to right, a match is replaced and
      the scan resumes after it; elsewhere the character is kept. */
  function Sub(p: Pattern, s: string): (r: string)
    ensures |r| <= |s|
    decreases |s|
  {
    if s == [] then []
    else match MatchAt(p, s) {
      case Some(h) => h.out + Sub(p, s[h.len..])
      case None => [s[0]] + Sub(p, s[1..])
    }
  }

  /** clean_markdown */
  function CleanMarkdown(text: string): (r: string)
    ensures IsStripped(r)
    ensures !Contains(r, "\n\n\n")
  {
    var t1 := Sub(Copy, text);
    var t2 := Sub(Dismiss, t1);
    var t3 := Sub(ManagePreferences, t2);
    var t4 := Sub(Cookies, t3);
    var t5 := Sub(Link, t4);
    var t6 := Sub(EscapedUnderscore, t5);
    var t7 := Sub(BlankLines, t6);
    BlankLinesCollapsed(t6);
    StripKeepsAbsent(t7, "\n\n\n");
    Strip(t7)
  }

  // ---------------------------------------------------------------------
  // The scan in general
  // ---------------------------------------------------------------------

  /** No match of `p` starts at index `k` of `s`. */
  predicate Misses(p: Pattern, s: string, k: nat)
    requires k <= |s|
  {
    MatchAt(p, s[k..]).None?
  }

  /** A stretch in which the pattern never starts a match is kept as it is. */
  lemma {:induction false} KeepFrom(p: Pattern, s: string, i: nat, n: nat)
    requires i <= n <= |s|
    requires forall k :: i <= k < n ==> Misses(p, s, k)
    ensures Sub(p, s[i..]) == s[i..n] + Sub(p, s[n..])
    decreases n - i
  {
    if i < n {
      KeepFrom(p, s, i + 1, n);
      KeepOne(p, s, i, n, Sub(p, s[n..]));
    }
  }

  /** A prefix in which the pattern never starts a match is kept as it is. */
  lemma KeepPrefix(p: Pattern, x: string, t: string)
    requires forall i :: 0 <= i < |x| ==> Misses(p, x + t, i)
    ensures Sub(p, x + t) == x + Sub(p, t)
  {
    var s := x + t;
    KeepFrom(p, s, 0, |x|);
    assert s[0..] == s && s[0..|x|] == x && s[|x|..] == t;
  }

  /** Where the pattern matches nowhere, the substitution changes nothing. */
  lemma NoMatchUnchanged(p: Pattern, s: string)
    requires forall i :: 0 <= i < |s| ==> Misses(p, s, i)
    ensures Sub(p, s) == s
  {
    KeepFrom(p, s, 0, |s|);
    assert s[0..] == s && s[0..|s|] == s && s[|s|..] == [];
  }

  /** Where no match starts, the character is kept in front of the rest. */
  lemma KeepOne(p: Pattern, s: string, i: nat, n: nat, rest: string)
    requires i < n <= |s| && Misses(p, s, i)
    requires Sub(p, s[i + 1..]) == s[i + 1..n] + rest
    ensures Sub(p, s[i..]) == s[i..n] + rest
  {
    SubKeeps(p, s, i);
    ConsSlice(s, i, n, rest);
  }

  /** Where no match starts, the first character is kept. */
  lemma SubKeeps(p: Pattern, s: string, k: nat)
    requires k < |s| && Misses(p, s, k)
    ensures Sub(p, s[k..]) == [s[k]] + Sub(p, s[k + 1..])
  {
    assert s[k..][1..] == s[k + 1..];
  }

  /** Putting the first character back in front of the rest of a slice. */
  lemma ConsSlice(s: string, i: nat, n: nat, rest: string)
    requires i < n <= |s|
    ensures [s[i]] + (s[i + 1..n] + rest) == s[i..n] + rest
  {
  }

  /** Where a match starts, it is replaced and the scan resumes after it. */
  lemma SubReplaces(p: Pattern, s: string, h: Hit)
    requires s != [] && MatchAt(p, s) == Some(h)
    ensures Sub(p, s) == h.out + Sub(p, s[h.len..])
  {
  }

  // ---------------------------------------------------------------------
  // Footer junk
  // ---------------------------------------------------------------------

  /** A footer word between two newlines is deleted with both of them, and
      text before it without the word is kept. */
  lemma JunkDeleted(p: Pattern, x: string, y: string)
    requires p.Copy? || p.Dismiss? || p.ManagePreferences?
    requires !Contains(x, Word(p))
    ensures Sub(p, x + "\n" + Word(p) + "\n" + y) == x + Sub(p, y)
  {
    var w := Word(p);
    var t := "\n" + w + "\n" + y;
    assert x + "\n" + w + "\n" + y == x + t;
    assert Sub(p, x + t) == x + Sub(p, t) by {
      JunkMisses(p, x, t);
      KeepPrefix(p, x, t);
    }
    assert Sub(p, t) == Sub(p, y) by {
      JunkFront(w, y);
      SubReplaces(p, t, Hit(|w| + 2, []));
    }
  }

  /** No junk match starts in text without the word that a newline ends. */
  lemma JunkMisses(p: Pattern, x: string, t: string)
    requires p.Copy? || p.Dismiss? || p.ManagePreferences?
    requires !Contains(x, Word(p)) && t != [] && t[0] == '\n'
    ensures forall i :: 0 <= i < |x| ==> Misses(p, x + t, i)
  {
    var w := Word(p);
    assert '\n' !in w;
    forall i | 0 <= i < |x| ensures Misses(p, x + t, i) {
      NoJunkBefore(x, t, w, i);
    }
  }

  /** A word between two newlines is one match taking both newlines. */
  lemma JunkFront(w: string, y: string)
    requires w != [] && w[0] != '\n'
    ensures var t := "\n" + w + "\n" + y;
            JunkMatch(t, w) == Some(Hit(|w| + 2, [])) && t[|w| + 2..] == y
  {
    var t := "\n" + w + "\n" + y;
    assert t[1..1 + |w|] == w;
    assert t[1 + |w|] == '\n';
    assert t[|w| + 2..] == y;
  }

  /** No junk match starts inside `x` when `x` lacks the word and a newline,
      which the word does not contain, follows `x`. */
  lemma NoJunkBefore(x: string, t: string, w: string, i: nat)
    requires w != [] && w[0] != '\n' && '\n' !in w
    requires !Contains(x, w) && t != [] && t[0] == '\n' && i < |x|
    ensures JunkMatch((x + t)[i..], w).None?
  {
    var s := x + t;
    var u := s[i..];
    NotAcross(x, t, w, i);
    NotAcross(x, t, w, i + 1);
    assert !StartsAt(u, 0, w) by {
      if |w| <= |u| { assert u[0..|w|] == s[i..i + |w|]; }
    }
    assert !StartsAt(u, 1, w) by {
      if 1 + |w| <= |u| { assert u[1..1 + |w|] == s[i + 1..i + 1 + |w|]; }
    }
  }

  /** The word does not start at `k`: before the newline it would lie in `x`,
      across it it would hold a newline. */
  lemma NotAcross(x: string, t: string, w: string, k: nat)
    requires '\n' !in w && !Contains(x, w)
    requires t != [] && t[0] == '\n' && k <= |x|
    ensures !StartsAt(x + t, k, w)
  {
    var s := x + t;
    if k + |w| <= |x| {
      assert s[k..k + |w|] == x[k..k + |w|];
      assert !StartsAt(x, k, w);
    } else if k + |w| <= |s| {
      assert s[k..k + |w|][|x| - k] == '\n';
      assert w[|x| - k] in w;
    }
  }

  // ---------------------------------------------------------------------
  // Links
  // ---------------------------------------------------------------------

  /** A link `[text](target)` with a non-empty text free of `]` and a
      non-empty target free of `)` becomes its text; text before it without a
      `[` is kept. */
  lemma LinkReplaced(x: string, text: string, target: string, y: string)
    requires '[' !in x
    requires text != [] && ']' !in text && target != [] && ')' !in target
    ensures Sub(Link, x + "[" + text + "](" + target + ")" + y) == x + text + Sub(Link, y)
  {
    var t := "[" + text + "](" + target + ")" + y;
    var s := x + t;
    assert x + "[" + text + "](" + target + ")" + y == s;
    assert Sub(Link, s) == x + Sub(Link, t) by {
      forall i | 0 <= i < |x| ensures Misses(Link, s, i) {
        assert s[i..][0] == x[i];
      }
      KeepPrefix(Link, x, t);
    }
    assert Sub(Link, t) == text + Sub(Link, y) by {
      LinkFront(text, target, y);
      SubReplaces(Link, t, Hit(|text| + |target| + 4, text));
    }
  }

  /** A link at the front is one match that yields its text. */
  lemma LinkFront(text: string, target: string, y: string)
    requires text != [] && ']' !in text && target != [] && ')' !in target
    ensures var t := "[" + text + "](" + target + ")" + y;
            LinkMatch(t) == Some(Hit(|text| + |target| + 4, text))
            && t[|text| + |target| + 4..] == y
  {
    var t := "[" + text + "](" + target + ")" + y;
    var c := |text| + 1;
    assert t[1..c] == text;
    assert t[c] == ']' && t[c + 1] == '(';
    IndexFromRun(t, ']', 1, c);
    var e := c + 2 + |target|;
    assert t[c + 2..e] == target;
    assert t[e] == ')';
    IndexFromRun(t, ')', c + 2, e);
    assert t[e + 1..] == y;
  }

  // ---------------------------------------------------------------------
  // The cookie banner
  // ---------------------------------------------------------------------

  /** A cookie banner ending at its first "Privacy Policy." is deleted
      together with that sentence; text before it without a `W` is kept. The
      banner's middle `m` holds no period, so no closing sentence can end
      earlier. */
  lemma CookieBannerRemoved(x: string, m: string, y: string)
    requires 'W' !in x && '.' !in m
    ensures Sub(Cookies, x + CookieIntro + m + "Privacy Policy." + y) == x + Sub(Cookies, y)
  {
    var t := CookieIntro + m + "Privacy Policy." + y;
    var s := x + t;
    assert x + CookieIntro + m + "Privacy Policy." + y == s;
    assert Sub(Cookies, s) == x + Sub(Cookies, t) by {
      forall i | 0 <= i < |x| ensures Misses(Cookies, s, i) {
        assert s[i..][0] == x[i];
        assert CookieIntro[0] == 'W';
      }
      KeepPrefix(Cookies, x, t);
    }
    var e := |CookieIntro| + |m| + 15;
    assert Sub(Cookies, t) == Sub(Cookies, y) by {
      assert t[..|CookieIntro|] == CookieIntro;
      BannerEnd(m, y, |CookieIntro|);
      assert MatchAt(Cookies, t) == Some(Hit(e, []));
      assert t[e..] == y;
      SubReplaces(Cookies, t, Hit(e, []));
    }
  }

  /** The lazy scan from any point of the banner's middle stops right after
      the closing "Privacy Policy.". */
  lemma {:induction false} BannerEnd(m: string, y: string, j: nat)
    requires '.' !in m && |CookieIntro| <= j <= |CookieIntro| + |m|
    ensures var t := CookieIntro + m + "Privacy Policy." + y;
            PolicyEnd(t, j) == Some(|CookieIntro| + |m| + 15)
    decreases |CookieIntro| + |m| - j
  {
    var t := CookieIntro + m + "Privacy Policy." + y;
    var c := |CookieIntro| + |m|;
    if j == c {
      assert t[j..j + 15] == "Privacy Policy.";
    } else {
      NoPeriodBefore(m, y, j + 14);
      NoPeriodBefore(m, y, j + 13);
      Mismatch(t, j, "Privacy Policy.", 14);
      Mismatch(t, j, "Cookie Policy.", 13);
      BannerEnd(m, y, j + 1);
    }
  }

  /** A text differing from `p` at offset `k` does not hold `p` at `i`. */
  lemma Mismatch(s: string, i: nat, p: string, k: nat)
    requires k < |p| && i + k < |s| && s[i + k] != p[k]
    ensures !StartsAt(s, i, p)
  {
    if i + |p| <= |s| {
      assert s[i..i + |p|][k] == s[i + k];
    }
  }

  /** Between the banner's opening words and the closing period there is no period. */
  lemma NoPeriodBefore(m: string, y: string, k: nat)
    requires '.' !in m && |CookieIntro| <= k < |CookieIntro| + |m| + 14
    ensures (CookieIntro + m + "Privacy Policy." + y)[k] != '.'
  {
    var t := CookieIntro + m + "Privacy Policy." + y;
    var c := |CookieIntro|;
    if k < c + |m| {
      assert t[k] == m[k - c];
    } else {
      assert t[k] == "Privacy Policy."[k - c - |m|];
    }
  }

  // ---------------------------------------------------------------------
  // Escaped underscores
  // ---------------------------------------------------------------------

  /** Markdown escaping of underscores, the inverse the substitution undoes. */
  function EscapeUnderscores(t: string): (r: string)
    ensures |r| >= |t|
  {
    if t == [] then []
    else (if t[0] == '_' then "\\_" else [t[0]]) + EscapeUnderscores(t[1..])
  }

  /** Unescaping restores any text without backslashes. */
  lemma {:induction false} UnderscoresRestored(t: string)
    requires '\\' !in t
    ensures Sub(EscapedUnderscore, EscapeUnderscores(t)) == t
  {
    if t != [] {
      var rest := EscapeUnderscores(t[1..]);
      UnderscoresRestored(t[1..]);
      if t[0] == '_' {
        assert ("\\_" + rest)[2..] == rest;
      } else {
        assert t[0] in t;
        assert ([t[0]] + rest)[1..] == rest;
      }
    }
  }

  // ---------------------------------------------------------------------
  // Blank lines
  // ---------------------------------------------------------------------

  /** No position of `s` starts three newlines. */
  predicate NoTriple(s: string) {
    s == [] || (Lead(s) < 3 && NoTriple(s[1..]))
  }

  /** Collapsing keeps a run of fewer than three leading newlines and cuts a
      longer one to two. */
  lemma {:induction false} LeadCollapsed(s: string)
    ensures Lead(Sub(BlankLines, s)) == if Lead(s) >= 3 then 2 else Lead(s)
    decreases |s|
  {
    if s != [] {
      var n := Lead(s);
      if n >= 3 {
        var z := Sub(BlankLines, s[n..]);
        LeadCollapsed(s[n..]);
        assert Lead(s[n..]) == 0;
        assert ("\n\n" + z)[1..] == "\n" + z && ("\n" + z)[1..] == z;
      } else {
        var z := Sub(BlankLines, s[1..]);
        LeadCollapsed(s[1..]);
        assert ([s[0]] + z)[1..] == z;
      }
    }
  }

  /** After collapsing, no three newlines follow one another. */
  lemma {:induction false} BlankLinesCollapsed(s: string)
    ensures NoTriple(Sub(BlankLines, s))
    ensures !Contains(Sub(BlankLines, s), "\n\n\n")
    decreases |s|
  {
    if s != [] {
      var n := Lead(s);
      LeadCollapsed(s);
      if n >= 3 {
        var z := Sub(BlankLines, s[n..]);
        BlankLinesCollapsed(s[n..]);
        LeadCollapsed(s[n..]);
        assert ("\n\n" + z)[1..] == "\n" + z && ("\n" + z)[1..] == z;
      } else {
        BlankLinesCollapsed(s[1..]);
        assert ([s[0]] + Sub(BlankLines, s[1..]))[1..] == Sub(BlankLines, s[1..]);
      }
    }
    NoTripleAbsent(Sub(BlankLines, s));
  }

  /** `NoTriple` is the absence of "\n\n\n". */
  lemma {:induction false} NoTripleAbsent(s: string)
    requires NoTriple(s)
    ensures !Contains(s, "\n\n\n")
    decreases |s|
  {
    if s != [] {
      NoTripleAbsent(s[1..]);
      forall i | 0 <= i <= |s| ensures !StartsAt(s, i, "\n\n\n") {
        if i == 0 {
          var n := Lead(s);
          if 3 <= |s| {
            assert s[..3][n] == s[n] != '\n';
          }
        } else {
          assert !StartsAt(s[1..], i - 1, "\n\n\n");
          if i + 3 <= |s| {
            assert s[1..][i - 1..i + 2] == s[i..i + 3];
          }
        }
      }
    }
  }

  /** Stripping cannot create a substring. */
  lemma StripKeepsAbsent(s: string, t: string)
    requires !Contains(s, t)
    ensures !Contains(Strip(s), t)
  {
    var a := StripInfix(s);
    AbsentFromInfix(s, a, a + |Strip(s)|, t);
  }

  /** A substring absent from a text is absent from each of its infixes. */
  lemma AbsentFromInfix(s: string, a: nat, b: nat, t: string)
    requires a <= b <= |s| && !Contains(s, t)
    ensures !Contains(s[a..b], t)
  {
    forall i | 0 <= i <= b - a ensures !StartsAt(s[a..b], i, t) {
      if i + |t| <= b - a {
        var u := s[a..b][i..i + |t|];
        assert u == s[a + i..a + i + |t|] by {
          forall j | 0 <= j < |t| ensures u[j] == s[a + i + j] {}
        }
        assert !StartsAt(s, a + i, t);
      }
    }
  }
}
