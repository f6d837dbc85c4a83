/** frontend/src/utils/network.js: `getCookie`, which reads one cookie out of
    `document.cookie`. The string built-ins it relies on (`split`, `trim`,
    `substring`) are written out with JavaScript's semantics; the page's
    cookie string and `decodeURIComponent` are parameters. */
module Network {
  import opened Wrappers
  import opened Seqs

  // ---------------------------------------------------------------------------
  // `String.prototype.split` with a one-character separator

  /** The pieces between separators, in order; the empty string is one
      empty piece. */
  function Split(s: string, sep: char): (r: seq<string>)
    ensures |r| >= 1
    ensures forall k | 0 <= k < |r| :: sep !in r[k]
  {
    if |s| == 0 then [""]
    else
      var rest := Split(s[1..], sep);
      if s[0] == sep then [""] + rest
      else [[s[0]] + rest[0]] + rest[1..]
  }

  /** `Array.prototype.join` with a one-character separator. */
  function Join(pieces: seq<string>, sep: char): string {
    if |pieces| == 0 then ""
    else if |pieces| == 1 then pieces[0]
    else pieces[0] + [sep] + Join(pieces[1..], sep)
  }

  /** Joining the pieces again gives back the string that was split. */
  lemma {:induction false} JoinSplit(s: string, sep: char)
    ensures Join(Split(s, sep), sep) == s
  {
    if |s| > 0 {
      var rest := Split(s[1..], sep);
      JoinSplit(s[1..], sep);
      if s[0] == sep {
        assert ([""] + rest)[1..] == rest;
      } else {
        var r := Split(s, sep);
        assert r[1..] == rest[1..];
        if |rest| > 1 {
          assert Join(rest, sep) == rest[0] + [sep] + Join(rest[1..], sep);
          assert Join(r, sep) == [s[0]] + rest[0] + [sep] + Join(rest[1..], sep);
        }
        assert [s[0]] + s[1..] == s;
      }
    }
  }

  lemma {:induction false} SplitNoSeparator(s: string, sep: char)
    requires sep !in s
    ensures Split(s, sep) == [s]
  {
    if |s| > 0 {
      SplitNoSeparator(s[1..], sep);
      assert [s[0]] + s[1..] == s;
    }
  }

  lemma {:induction false} SplitAfterPiece(a: string, b: string, sep: char)
    requires sep !in a
    ensures Split(a + [sep] + b, sep) == [a] + Split(b, sep)
  {
    if |a| == 0 {
      assert a + [sep] + b == [sep] + b;
      assert ([sep] + b)[1..] == b;
    } else {
      assert (a + [sep] + b)[1..] == a[1..] + [sep] + b;
      SplitAfterPiece(a[1..], b, sep);
      assert [a[0]] + a[1..] == a;
    }
  }

  /** Splitting what was joined gives back the pieces, provided none
      contains the separator. */
  lemma {:induction false} SplitJoin(pieces: seq<string>, sep: char)
    requires |pieces| >= 1
    requires forall k | 0 <= k < |pieces| :: sep !in pieces[k]
    ensures Split(Join(pieces, sep), sep) == pieces
  {
    if |pieces| == 1 {
      SplitNoSeparator(pieces[0], sep);
    } else {
      SplitJoin(pieces[1..], sep);
      SplitAfterPiece(pieces[0], Join(pieces[1..], sep), sep);
    }
  }

  // ---------------------------------------------------------------------------
  // `String.prototype.trim` and `String.prototype.substring`

  /** ECMAScript's WhiteSpace and LineTerminator characters. */
  predicate IsJsWhitespace(c: char) {
    || c == '\t' || c == '\U{B}' || c == '\U{C}' || c == ' ' || c == '\U{A0}' || c == '\U{FEFF}'
    || c == '\U{1680}' || ('\U{2000}' <= c <= '\U{200A}') || c == '\U{202F}' || c == '\U{205F}' || c == '\U{3000}'
    || c == '\n' || c == '\r' || c == '\U{2028}' || c == '\U{2029}'
  }

  function TrimStart(s: string): string {
    if |s| > 0 && IsJsWhitespace(s[0]) then TrimStart(s[1..]) else s
  }

  function TrimEnd(s: string): string {
    if |s| > 0 && IsJsWhitespace(s[|s| - 1]) then TrimEnd(s[..|s| - 1]) else s
  }

  /** The leading trim drops a run of whitespace and stops at the first
      other character. */
  lemma {:induction false} TrimStartDropsLeadingWhitespace(s: string)
    ensures var r := TrimStart(s);
      && |r| <= |s| && r == s[|s| - |r|..]
      && (forall k | 0 <= k < |s| - |r| :: IsJsWhitespace(s[k]))
      && (|r| > 0 ==> !IsJsWhitespace(r[0]))
  {
    if |s| > 0 && IsJsWhitespace(s[0]) {
      TrimStartDropsLeadingWhitespace(s[1..]);
    }
  }

  /** The trailing trim drops a run of whitespace and stops at the last
      other character. */
  lemma {:induction false} TrimEndDropsTrailingWhitespace(s: string)
    ensures var r := TrimEnd(s);
      && |r| <= |s| && r == s[..|r|]
      && (forall k | |r| <= k < |s| :: IsJsWhitespace(s[k]))
      && (|r| > 0 ==> !IsJsWhitespace(r[|r| - 1]))
  {
    if |s| > 0 && IsJsWhitespace(s[|s| - 1]) {
      TrimEndDropsTrailingWhitespace(s[..|s| - 1]);
    }
  }

  /** `trim()`: whitespace removed from both ends, nothing else. */
  function Trim(s: string): string {
    TrimEnd(TrimStart(s))
  }

  /** The trim keeps one contiguous slice of `s`: everything before and
      after it is whitespace, and the slice, when not empty, neither starts
      nor ends with whitespace. */
  lemma TrimKeepsInnerSlice(s: string)
    ensures var r, lo := Trim(s), |s| - |TrimStart(s)|;
      && 0 <= lo && lo + |r| <= |s| && r == s[lo..lo + |r|]
      && (forall k | 0 <= k < lo :: IsJsWhitespace(s[k]))
      && (forall k | lo + |r| <= k < |s| :: IsJsWhitespace(s[k]))
      && (|r| > 0 ==> !IsJsWhitespace(r[0]) && !IsJsWhitespace(r[|r| - 1]))
  {
    var t := TrimStart(s);
    var r, lo := TrimEnd(t), |s| - |t|;
    TrimStartDropsLeadingWhitespace(s);
    TrimEndDropsTrailingWhitespace(t);
    forall k | lo + |r| <= k < |s|
      ensures IsJsWhitespace(s[k])
    {
      assert s[k] == t[k - lo];
    }
    if |r| > 0 {
      assert r[0] == t[0];
    }
  }

  function Min(a: int, b: int): int {
    if a <= b then a else b
  }

  /** `s.substring(start, end)` for non-negative bounds: each bound is
      clamped to the length, and the two are swapped if out of order. */
  function Substring(s: string, start: nat, end: nat): (r: string)
    ensures |r| <= |s|
  {
    var a, b := Min(start, |s|), Min(end, |s|);
    if a <= b then s[a..b] else s[b..a]
  }

  // ---------------------------------------------------------------------------
  // `getCookie`

  /** `cookie.substring(0, name.length + 1) === (name + '=')`. */
  predicate PieceMatches(piece: string, name: string) {
    Substring(piece, 0, |name| + 1) == name + "="
  }

  /** A piece matches exactly when it starts with `name=`. */
  lemma PieceMatchesIffPrefix(piece: string, name: string)
    ensures PieceMatches(piece, name) <==> |piece| > |name| && piece[..|name| + 1] == name + "="
  {
  }

  /** A longer cookie name that extends the wanted one does not match. */
  lemma LongerNameDoesNotMatch()
    ensures !PieceMatches("csrftoken2=abc", "csrftoken")
  {
    PieceMatchesIffPrefix("csrftoken2=abc", "csrftoken");
    assert "csrftoken2=abc"[9] != "csrftoken="[9];
  }

  /** A piece of the cookie string, trimmed, starts with `name=`. */
  predicate CookieMatches(piece: string, name: string) {
    PieceMatches(Trim(piece), name)
  }

  function MatchTest(name: string): string -> bool {
    (piece: string) => CookieMatches(piece, name)
  }

  /** `cookie.substring(name.length + 1)`: what follows `name=`. */
  function ValueAfter(piece: string, name: string): string {
    Substring(piece, |name| + 1, |piece|)
  }

  /** What `getCookie(name)` returns for the page's cookie string: nothing
      for an empty string; otherwise the decoded value of the first
      ';'-separated piece that, trimmed, starts with `name=`. */
  function CookieValue(documentCookie: string, name: string, decode: string -> string): Option<string> {
    if |documentCookie| == 0 then None
    else
      var pieces := Split(documentCookie, ';');
      match FirstIndex(pieces, MatchTest(name))
      case None => None
      case Some(i) => Some(decode(ValueAfter(Trim(pieces[i]), name)))
  }

  /** `getCookie(name)`. */
  method GetCookie(documentCookie: string, name: string, decode: string -> string) returns (cookieValue: Option<string>)
    ensures cookieValue == CookieValue(documentCookie, name, decode)
  {
    cookieValue := None;
    if |documentCookie| > 0 {
      var cookies := Split(documentCookie, ';');
      var i := 0;
      while i < |cookies|
        invariant 0 <= i <= |cookies|
        invariant cookieValue.None?
        invariant forall j :: 0 <= j < i ==> !CookieMatches(cookies[j], name)
      {
        var cookie := Trim(cookies[i]);
        if PieceMatches(cookie, name) {
          cookieValue := Some(decode(Substring(cookie, |name| + 1, |cookie|)));
          FirstIndexIs(cookies, MatchTest(name), i);
          break;
        }
        i := i + 1;
      }
    }
  }

  // ---------------------------------------------------------------------------
  // Round trip with the browser's cookie string

  /** One `name=value` cookie as the browser lists it. */
  datatype CookiePair = CookiePair(key: string, value: string)

  /** A cookie whose name is non-empty and free of '=', and whose name and
      value hold no ';' and no whitespace. */
  predicate WellFormedPair(p: CookiePair) {
    && |p.key| > 0
    && (forall k | 0 <= k < |p.key| :: p.key[k] != ';' && p.key[k] != '=' && !IsJsWhitespace(p.key[k]))
    && (forall k | 0 <= k < |p.value| :: p.value[k] != ';' && !IsJsWhitespace(p.value[k]))
  }

  function PairString(p: CookiePair): string {
    p.key + "=" + p.value
  }

  /** The pieces of `document.cookie` between the ';'s: every cookie after
      the first is preceded by a space. */
  function CookiePieces(pairs: seq<CookiePair>): seq<string> {
    seq(|pairs|, i requires 0 <= i < |pairs| => (if i == 0 then "" else " ") + PairString(pairs[i]))
  }

  /** `document.cookie`: the cookies joined by "; ". */
  function FormatCookies(pairs: seq<CookiePair>): string {
    Join(CookiePieces(pairs), ';')
  }

  function KeyTest(name: string): CookiePair -> bool {
    (p: CookiePair) => p.key == name
  }

  lemma TrimPiece(p: CookiePair, lead: string)
    requires WellFormedPair(p)
    requires lead == "" || lead == " "
    ensures Trim(lead + PairString(p)) == PairString(p)
  {
    var s := PairString(p);
    assert s[0] == p.key[0];
    assert TrimStart(s) == s;
    assert !IsJsWhitespace(s[|s| - 1]) by {
      if |p.value| > 0 {
        assert s[|s| - 1] == p.value[|p.value| - 1];
      } else {
        assert s[|s| - 1] == '=';
      }
    }
    assert TrimEnd(s) == s;
    if lead == " " {
      assert (lead + s)[0] == ' ';
      assert (lead + s)[1..] == s;
      assert TrimStart(lead + s) == TrimStart(s);
    } else {
      assert lead + s == s;
    }
  }

  /** A cookie with another name never matches, even when one name extends
      the other. */
  lemma OtherKeyDoesNotMatch(p: CookiePair, name: string)
    requires WellFormedPair(p)
    requires forall k | 0 <= k < |name| :: name[k] != '='
    requires p.key != name
    ensures !PieceMatches(PairString(p), name)
  {
    var s, want := PairString(p), name + "=";
    PieceMatchesIffPrefix(s, name);
    if |s| > |name| {
      if |name| < |p.key| {
        assert s[|name|] == p.key[|name|];
        assert s[..|name| + 1][|name|] != want[|name|];
      } else if |name| > |p.key| {
        assert s[|p.key|] == '=';
        assert s[..|name| + 1][|p.key|] != want[|p.key|];
      } else {
        var k :| 0 <= k < |name| && name[k] != p.key[k];
        assert s[..|name| + 1][k] != want[k];
      }
    }
  }

  /** For a well-formed cookie and a name without '=', the piece matches
      exactly when the cookie has that name, and the value read is its value. */
  lemma PairMatches(p: CookiePair, name: string)
    requires WellFormedPair(p)
    requires forall k | 0 <= k < |name| :: name[k] != '='
    ensures PieceMatches(PairString(p), name) <==> p.key == name
    ensures p.key == name ==> ValueAfter(PairString(p), name) == p.value
  {
    var s := PairString(p);
    PieceMatchesIffPrefix(s, name);
    if p.key == name {
      assert s[..|name| + 1] == name + "=";
      assert s[|name| + 1..] == p.value;
    } else {
      OtherKeyDoesNotMatch(p, name);
    }
  }

  /** The browser's cookie string splits back into its pieces. */
  lemma SplitFormat(pairs: seq<CookiePair>)
    requires |pairs| > 0
    requires forall i | 0 <= i < |pairs| :: WellFormedPair(pairs[i])
    ensures |FormatCookies(pairs)| > 0
    ensures Split(FormatCookies(pairs), ';') == CookiePieces(pairs)
  {
    var pieces := CookiePieces(pairs);
    forall k | 0 <= k < |pieces|
      ensures ';' !in pieces[k]
    {
      var w := PairString(pairs[k]);
      assert pieces[k] == (if k == 0 then "" else " ") + w;
      assert ';' !in w by {
        assert forall j | 0 <= j < |w| :: w[j] != ';' by {
          forall j | 0 <= j < |w|
            ensures w[j] != ';'
          {
            if j > |pairs[k].key| {
              assert w[j] == pairs[k].value[j - |pairs[k].key| - 1];
            }
          }
        }
      }
    }
    SplitJoin(pieces, ';');
    assert |pieces[0]| > 0;
    JoinNonEmpty(pieces, ';');
  }

  /** Reading a cookie back from the string the browser builds: the value
      of the first cookie with that name, decoded; nothing if there is none. */
  lemma CookieValueOfFormat(pairs: seq<CookiePair>, name: string, decode: string -> string)
    requires forall i | 0 <= i < |pairs| :: WellFormedPair(pairs[i])
    requires forall k | 0 <= k < |name| :: name[k] != '='
    ensures CookieValue(FormatCookies(pairs), name, decode) ==
      match FirstIndex(pairs, KeyTest(name))
      case None => None
      case Some(i) => Some(decode(pairs[i].value))
  {
    if |pairs| == 0 {
      assert FormatCookies(pairs) == "";
    } else {
      var pieces := CookiePieces(pairs);
      SplitFormat(pairs);
      forall i | 0 <= i < |pairs|
        ensures MatchTest(name)(pieces[i]) == KeyTest(name)(pairs[i])
      {
        TrimPiece(pairs[i], if i == 0 then "" else " ");
        PairMatches(pairs[i], name);
      }
      FirstIndexCorresponds(pieces, MatchTest(name), pairs, KeyTest(name));
      var found := FirstIndex(pairs, KeyTest(name));
      if found.Some? {
        TrimPiece(pairs[found.value], if found.value == 0 then "" else " ");
        PairMatches(pairs[found.value], name);
      }
    }
  }

  lemma JoinNonEmpty(pieces: seq<string>, sep: char)
    requires |pieces| >= 1 && |pieces[0]| > 0
    ensures |Join(pieces, sep)| > 0
  {
  }
}
