/**
 * The two text rewriters of the bot: `format_text`, applied to every
 * outgoing text answer, turns a `**bold**` marker pair into `<b>bold</b>`
 * (the regular expression `\*\*(.*?)\*\*`, lazy, `.` not crossing a newline);
 * `clean_text` removes ANSI colour codes (`\x1b\[[0-9;]*m`). The latter is
 * defined but never called by the bot.
 * Both are written as explicit left-to-right scanners over suffixes,
 * trying a match at the current position and otherwise copying one character,
 * which is how a single pass of `re.sub` proceeds.
 */
module TextFormat {
  import opened Wrappers

  // ---------------------------------------------------------------------
  // format_text
  // ---------------------------------------------------------------------

  /** A bold marker `**` starts at index i of t. */
  predicate MarkerAt(t: string, i: int)
  {
    0 <= i && i + 2 <= |t| && t[i] == '*' && t[i + 1] == '*'
  }

  /** Some bold marker starts somewhere in t. */
  predicate HasMarker(t: string)
  {
    exists i :: 0 <= i < |t| && MarkerAt(t, i)
  }

  /**
   * Where the lazy group `(.*?)` stops inside s (the text after an opening
   * marker): the first index at which a closing marker starts, provided no
   * newline comes before it. None when a newline or the end comes first.
   */
  function CloseIn(s: string): (r: Option<nat>)
    decreases |s|
    ensures r.Some? ==> MarkerAt(s, r.value)
  {
    if MarkerAt(s, 0) then Some(0)
    else if s == [] || s[0] == '\n' then None
    else
      match CloseIn(s[1..])
      case Some(k) =>
        assert s[k + 1] == s[1..][k] && s[k + 2] == s[1..][k + 1];
        Some(k + 1)
      case None => None
  }

  /** When the lazy group stops, it stops at the first closing marker and crosses no newline. */
  lemma {:induction false} CloseInFirst(s: string)
    requires CloseIn(s).Some?
    ensures forall m :: 0 <= m < CloseIn(s).value ==> s[m] != '\n' && !MarkerAt(s, m)
    decreases |s|
  {
    if !MarkerAt(s, 0) {
      var u := s[1..];
      CloseInFirst(u);
      assert forall m :: 1 <= m <= CloseIn(u).value ==> s[m] == u[m - 1] && (MarkerAt(s, m) ==> MarkerAt(u, m - 1));
    }
  }

  /** The lazy group stops at the first closing marker when no newline comes first. */
  lemma {:induction false} CloseInFinds(s: string, k: nat)
    requires MarkerAt(s, k)
    requires forall m :: 0 <= m < k ==> s[m] != '\n' && !MarkerAt(s, m)
    ensures CloseIn(s) == Some(k)
  {
    if k > 0 {
      var u := s[1..];
      assert MarkerAt(u, k - 1);
      assert forall m :: 0 <= m < k - 1 ==> u[m] == s[m + 1] && (MarkerAt(u, m) ==> MarkerAt(s, m + 1));
      CloseInFinds(u, k - 1);
    }
  }

  /** A newline reached before any closing marker makes the match fail. */
  lemma {:induction false} CloseInBlocked(s: string, n: nat)
    requires n < |s| && s[n] == '\n'
    requires forall m :: 0 <= m <= n ==> !MarkerAt(s, m)
    ensures CloseIn(s) == None
  {
    if n > 0 {
      var u := s[1..];
      assert u[n - 1] == '\n';
      assert forall m :: 0 <= m <= n - 1 ==> (MarkerAt(u, m) ==> MarkerAt(s, m + 1));
      CloseInBlocked(u, n - 1);
    }
  }

  /** Without any closing marker the match fails. */
  lemma {:induction false} CloseInNone(s: string)
    requires forall m :: 0 <= m < |s| ==> !MarkerAt(s, m)
    ensures CloseIn(s) == None
  {
    if s != [] && s[0] != '\n' {
      var u := s[1..];
      assert forall m :: 0 <= m < |u| ==> (MarkerAt(u, m) ==> MarkerAt(s, m + 1));
      CloseInNone(u);
    }
  }

  /**
   * One pass of `re.sub(r'\*\*(.*?)\*\*', r'<b>\1</b>', t)`: at an opening
   * marker with a closing one on the same line, emit the bold span and
   * resume after the closing marker; otherwise copy one character.
   */
  function FormatText(t: string): (r: string)
    decreases |t|
    ensures |r| >= |t|
  {
    if t == [] then []
    else if MarkerAt(t, 0) then
      match CloseIn(t[2..])
      case Some(k) => "<b>" + t[2..2 + k] + "</b>" + FormatText(t[2 + k + 2..])
      case None => [t[0]] + FormatText(t[1..])
    else [t[0]] + FormatText(t[1..])
  }

  /** A first character other than `*` is copied. */
  lemma FormatCopiesFirst(c: char, u: string)
    requires c != '*'
    ensures FormatText([c] + u) == [c] + FormatText(u)
  {
    var t := [c] + u;
    assert t[0] == c && t[1..] == u;
  }

  /** A non-empty text followed by b is its first character followed by the rest and b. */
  lemma SplitFirst(a: string, b: string)
    requires a != []
    ensures a + b == [a[0]] + (a[1..] + b)
  {
    assert [a[0]] + a[1..] == a;
  }

  /** A prefix without any `*` is copied through unchanged. */
  lemma {:induction false} FormatPlainPrefix(a: string, b: string)
    requires '*' !in a
    ensures FormatText(a + b) == a + FormatText(b)
  {
    if a == [] {
      assert a + b == b;
    } else {
      var c, rest := a[0], a[1..];
      SplitFirst(a, b);
      FormatCopiesFirst(c, rest + b);
      FormatPlainPrefix(rest, b);
      SplitFirst(a, FormatText(b));
    }
  }

  /** Text that contains no `**` is returned unchanged. */
  lemma {:induction false} FormatNoMarker(t: string)
    requires !HasMarker(t)
    ensures FormatText(t) == t
  {
    if t != [] {
      assert !MarkerAt(t, 0);
      var u := t[1..];
      assert !HasMarker(u) by {
        forall i | MarkerAt(u, i) ensures false { assert MarkerAt(t, i + 1); }
      }
      FormatNoMarker(u);
    }
  }

  /** A closed pair whose content has no `*` and no newline becomes one bold span. */
  lemma FormatBoldSpan(s: string, b: string)
    requires '*' !in s && '\n' !in s
    ensures FormatText("**" + s + "**" + b) == "<b>" + s + "</b>" + FormatText(b)
  {
    var t := "**" + s + "**" + b;
    var u := t[2..];
    assert u == s + "**" + b;
    assert MarkerAt(u, |s|);
    assert forall m :: 0 <= m < |s| ==> u[m] == s[m] && u[m] != '*';
    CloseInFinds(u, |s|);
    assert t[2..2 + |s|] == s;
    assert t[2 + |s| + 2..] == b;
  }

  /** `"**" + s + "**"` with s free of `*` and newlines becomes `"<b>" + s + "</b>"`. */
  lemma FormatSinglePair(s: string)
    requires '*' !in s && '\n' !in s
    ensures FormatText("**" + s + "**") == "<b>" + s + "</b>"
  {
    FormatBoldSpan(s, "");
    assert "**" + s + "**" + "" == "**" + s + "**";
  }

  /**
   * A plain lead-in, one closed pair and a plain tail, the shape of every
   * notice the bot sends: the lead-in and the tail are kept and the pair
   * turns bold.
   */
  lemma FormatLeadIn(p: string, s: string, q: string)
    requires '*' !in p && '*' !in s && '\n' !in s && '*' !in q
    ensures FormatText(p + "**" + s + "**" + q) == p + "<b>" + s + "</b>" + q
  {
    var rest := "**" + s + "**" + q;
    var out := "<b>" + s + "</b>" + q;
    assert FormatText(rest) == out by { FormatBoldThenPlain(s, q); }
    assert FormatText(p + rest) == p + out by { FormatPlainPrefix(p, rest); }
    RegroupFive(p, "**", s, "**", q);
    RegroupFive(p, "<b>", s, "</b>", q);
  }

  /** Regrouping a left-nested concatenation of five pieces after its first piece. */
  lemma RegroupFive(a: string, b: string, c: string, d: string, e: string)
    ensures a + b + c + d + e == a + (b + c + d + e)
  {
  }

  /** One closed pair followed by a plain tail: the tail is copied. */
  lemma FormatBoldThenPlain(s: string, q: string)
    requires '*' !in s && '\n' !in s && '*' !in q
    ensures FormatText("**" + s + "**" + q) == "<b>" + s + "</b>" + q
  {
    FormatBoldSpan(s, q);
    FormatPlainPrefix(q, []);
    assert q + [] == q;
  }

  /** An opening marker that finds no closing one is copied, and scanning resumes after it. */
  lemma FormatFailedOpen(t: string)
    requires MarkerAt(t, 0) && CloseIn(t[2..]).None?
    ensures FormatText(t) == "**" + FormatText(t[2..])
  {
    var u := t[1..];
    assert u[1..] == t[2..];
    if MarkerAt(u, 0) {
      // `***`: the marker re-opened at index 1 fails to close as well
      assert t[2..] == ['*'] + u[2..];
      CloseInAfterStar(u[2..]);
    }
    assert FormatText(u) == [u[0]] + FormatText(t[2..]);
  }

  /** A lone `*` in front cannot be what lets the lazy group close. */
  lemma CloseInAfterStar(r: string)
    requires CloseIn(['*'] + r).None?
    ensures CloseIn(r).None?
  {
    var s := ['*'] + r;
    assert s[1..] == r;
  }

  /** An opening marker followed by text with no `**` is left as it is. */
  lemma FormatUnclosed(s: string)
    requires !HasMarker(s)
    ensures FormatText("**" + s) == "**" + s
  {
    var t := "**" + s;
    assert t[2..] == s;
    CloseInNone(s);
    FormatFailedOpen(t);
    FormatNoMarker(s);
  }

  /** A pair split by a newline, with no `**` on either side, is left as it is. */
  lemma FormatSplitByNewline(a: string, b: string)
    requires !HasMarker(a) && !HasMarker(b)
    ensures FormatText("**" + a + "\n" + b + "**") == "**" + a + "\n" + b + "**"
  {
    var e: string := "**";
    var mid := a + "\n" + b;
    var u := mid + e;
    var t := e + u;
    assert "**" + a + "\n" + b + "**" == t;
    NewlineBlocksClose(a, b);
    assert FormatText(t) == e + FormatText(u) by {
      assert t[2..] == u;
      FormatFailedOpen(t);
    }
    NoMarkerAround(a, b);
    FormatThenMarker(mid);
  }

  /** After an opening marker, a newline before any closing one blocks the match. */
  lemma NewlineBlocksClose(a: string, b: string)
    requires !HasMarker(a)
    ensures CloseIn(a + "\n" + b + "**").None?
  {
    var u := a + "\n" + b + "**";
    assert u[|a|] == '\n';
    assert forall m :: 0 <= m <= |a| ==> !MarkerAt(u, m) by {
      forall m | 0 <= m <= |a| && MarkerAt(u, m) ensures false {
        assert m + 1 < |a| && MarkerAt(a, m);
      }
    }
    CloseInBlocked(u, |a|);
  }

  /** Joining two texts without `**` by a newline creates no `**`. */
  lemma NoMarkerAround(a: string, b: string)
    requires !HasMarker(a) && !HasMarker(b)
    ensures !HasMarker(a + "\n" + b)
  {
    var mid := a + "\n" + b;
    forall i | 0 <= i < |mid| && MarkerAt(mid, i) ensures false {
      if i + 1 < |a| {
        assert MarkerAt(a, i);
      } else {
        assert i > |a| && MarkerAt(b, i - |a| - 1);
      }
    }
  }

  /** Text with no `**`, followed by a final `**`, is left as it is. */
  lemma {:induction false} FormatThenMarker(x: string)
    requires !HasMarker(x)
    ensures FormatText(x + "**") == x + "**"
    decreases |x|
  {
    var t := x + "**";
    if x == [] {
      assert t == "**" && t[2..] == [];
      FormatFailedOpen(t);
    } else if MarkerAt(t, 0) {
      // x is a single `*`: the text is `***`
      assert |x| == 1 by { if |x| >= 2 { assert MarkerAt(x, 0); } }
      assert t[2..] == "*" && CloseIn(t[2..]).None?;
      FormatFailedOpen(t);
      FormatUnclosed([]);
      assert t == ['*'] + "**";
    } else {
      var y := x[1..];
      assert !HasMarker(y) by {
        forall i | 0 <= i < |y| && MarkerAt(y, i) ensures false { assert MarkerAt(x, i + 1); }
      }
      assert FormatText(t) == [x[0]] + FormatText(y + "**") by {
        assert t[1..] == y + "**";
      }
      FormatThenMarker(y);
      assert [x[0]] + (y + "**") == t;
    }
  }

  /** Inverse reading of the output: both bold tags turned back into `**`. */
  function Unformat(r: string): string
    decreases |r|
  {
    if |r| >= 3 && r[0] == '<' && r[1] == 'b' && r[2] == '>' then "**" + Unformat(r[3..])
    else if |r| >= 4 && r[0] == '<' && r[1] == '/' && r[2] == 'b' && r[3] == '>' then "**" + Unformat(r[4..])
    else if r == [] then []
    else [r[0]] + Unformat(r[1..])
  }

  lemma UnformatCopiesFirst(c: char, u: string)
    requires c != '<'
    ensures Unformat([c] + u) == [c] + Unformat(u)
  {
    var r := [c] + u;
    assert r[0] == c && r[1..] == u;
  }

  lemma {:induction false} UnformatPlainPrefix(x: string, y: string)
    requires '<' !in x
    ensures Unformat(x + y) == x + Unformat(y)
  {
    if x == [] {
      assert x + y == y;
    } else {
      var c, rest := x[0], x[1..];
      SplitFirst(x, y);
      UnformatCopiesFirst(c, rest + y);
      UnformatPlainPrefix(rest, y);
      SplitFirst(x, Unformat(y));
    }
  }

  lemma UnformatOpenTag(y: string)
    ensures Unformat("<b>" + y) == "**" + Unformat(y)
  {
    var r := "<b>" + y;
    assert r[0] == '<' && r[1] == 'b' && r[2] == '>';
    assert r[3..] == y;
  }

  lemma UnformatCloseTag(y: string)
    ensures Unformat("</b>" + y) == "**" + Unformat(y)
  {
    var r := "</b>" + y;
    assert r[0] == '<' && r[1] == '/' && r[2] == 'b' && r[3] == '>';
    assert r[4..] == y;
  }

  /**
   * Formatting loses nothing: for text without `<`, replacing both tags by
   * `**` again gives back the original text.
   */
  lemma {:induction false} FormatRoundTrip(t: string)
    requires '<' !in t
    ensures Unformat(FormatText(t)) == t
    decreases |t|
  {
    if t == [] {
    } else if MarkerAt(t, 0) && CloseIn(t[2..]).Some? {
      var k := CloseIn(t[2..]).value;
      var rest := t[2 + k + 2..];
      assert '<' !in rest;
      FormatRoundTrip(rest);
      RoundTripSpan(t, k);
    } else {
      FormatRoundTrip(t[1..]);
      RoundTripCopy(t);
    }
  }

  /** Round-trip step for a bold span, given the round trip of what follows it. */
  lemma RoundTripSpan(t: string, k: nat)
    requires '<' !in t && MarkerAt(t, 0) && CloseIn(t[2..]) == Some(k)
    requires Unformat(FormatText(t[2 + k + 2..])) == t[2 + k + 2..]
    ensures Unformat(FormatText(t)) == t
  {
    var inner := t[2..2 + k];
    var rest := t[2 + k + 2..];
    SpanParts(t, k);
    assert '<' !in inner;
    UnformatSpan(inner, FormatText(rest));
  }

  /** How a bold span splits the text, and what it is formatted to. */
  lemma SpanParts(t: string, k: nat)
    requires MarkerAt(t, 0) && CloseIn(t[2..]) == Some(k)
    ensures t == "**" + t[2..2 + k] + "**" + t[2 + k + 2..]
    ensures FormatText(t) == "<b>" + t[2..2 + k] + "</b>" + FormatText(t[2 + k + 2..])
  {
    assert t[2 + k] == t[2..][k] && t[2 + k + 1] == t[2..][k + 1];
    MarkersAround(t, k);
  }

  /** A text with markers at 0 and at 2 + k is the marked span between them and the rest. */
  lemma MarkersAround(t: string, k: nat)
    requires MarkerAt(t, 0) && MarkerAt(t, 2 + k)
    ensures t == "**" + t[2..2 + k] + "**" + t[2 + k + 2..]
  {
    var e: string := "**";
    assert t[..2] == e && t[2 + k..2 + k + 2] == e;
    assert t == t[..2] + t[2..2 + k] + t[2 + k..2 + k + 2] + t[2 + k + 2..];
  }

  lemma UnformatSpan(inner: string, f: string)
    requires '<' !in inner
    ensures Unformat("<b>" + inner + "</b>" + f) == "**" + inner + "**" + Unformat(f)
  {
    var tail := "</b>" + f;
    assert "<b>" + inner + "</b>" + f == "<b>" + (inner + tail);
    UnformatOpenTag(inner + tail);
    UnformatPlainPrefix(inner, tail);
    UnformatCloseTag(f);
    assert "**" + (inner + ("**" + Unformat(f))) == "**" + inner + "**" + Unformat(f);
  }

  /** Round-trip step for a copied character, given the round trip of the rest. */
  lemma RoundTripCopy(t: string)
    requires '<' !in t && t != []
    requires !(MarkerAt(t, 0) && CloseIn(t[2..]).Some?)
    requires Unformat(FormatText(t[1..])) == t[1..]
    ensures Unformat(FormatText(t)) == t
  {
    assert FormatText(t) == [t[0]] + FormatText(t[1..]);
    UnformatCopiesFirst(t[0], FormatText(t[1..]));
    assert t == [t[0]] + t[1..];
  }

  // ---------------------------------------------------------------------
  // clean_text
  // ---------------------------------------------------------------------

  const Esc: char := '\U{1B}'

  /** The characters `[0-9;]` allowed between `ESC [` and `m`. */
  predicate IsParamChar(c: char)
  {
    ('0' <= c <= '9') || c == ';'
  }

  /** Length of the longest prefix of s made of parameter characters (`[0-9;]*`, greedy). */
  function ParamRun(s: string): (n: nat)
    decreases |s|
    ensures n <= |s|
    ensures forall m :: 0 <= m < n ==> IsParamChar(s[m])
    ensures n < |s| ==> !IsParamChar(s[n])
  {
    if s != [] && IsParamChar(s[0]) then 1 + ParamRun(s[1..]) else 0
  }

  /** Length of the colour code `ESC [ [0-9;]* m` at the start of t, if one is there. */
  function SgrLength(t: string): (r: Option<nat>)
    ensures r.Some? ==> 3 <= r.value <= |t| && t[0] == Esc && t[1] == '[' && t[r.value - 1] == 'm'
    ensures r.Some? ==> forall m :: 2 <= m < r.value - 1 ==> IsParamChar(t[m])
  {
    if |t| >= 2 && t[0] == Esc && t[1] == '[' then
      var k := 2 + ParamRun(t[2..]);
      if k < |t| && t[k] == 'm' then Some(k + 1) else None
    else None
  }

  /** One pass of `re.sub(r'\x1b\[[0-9;]*m', '', t)`. */
  function CleanText(t: string): (r: string)
    decreases |t|
    ensures |r| <= |t|
  {
    if t == [] then []
    else
      match SgrLength(t)
      case Some(n) => CleanText(t[n..])
      case None => [t[0]] + CleanText(t[1..])
  }

  /** Text without an escape character is returned unchanged. */
  lemma {:induction false} CleanNoEscape(t: string)
    requires Esc !in t
    ensures CleanText(t) == t
  {
    if t != [] {
      assert SgrLength(t).None?;
      CleanNoEscape(t[1..]);
    }
  }

  /** A piece of text as a program might print it: plain text or a colour code. */
  datatype Chunk = Plain(text: string) | Colour(params: string)

  /** A chunk that is well formed: plain text has no escape, parameters are `[0-9;]*`. */
  predicate WellFormedChunk(c: Chunk)
  {
    match c
    case Plain(s) => Esc !in s
    case Colour(p) => forall m :: 0 <= m < |p| ==> IsParamChar(p[m])
  }

  function Render(cs: seq<Chunk>): string
  {
    if cs == [] then []
    else
      (match cs[0]
       case Plain(s) => s
       case Colour(p) => [Esc, '['] + p + "m") + Render(cs[1..])
  }

  function PlainPart(cs: seq<Chunk>): string
  {
    if cs == [] then []
    else (if cs[0].Plain? then cs[0].text else []) + PlainPart(cs[1..])
  }

  /** A first character other than the escape is copied. */
  lemma CleanCopiesFirst(c: char, u: string)
    requires c != Esc
    ensures CleanText([c] + u) == [c] + CleanText(u)
  {
    var t := [c] + u;
    assert t[0] == c && t[1..] == u;
    assert SgrLength(t).None?;
  }

  lemma {:induction false} CleanPlainPrefix(a: string, b: string)
    requires Esc !in a
    ensures CleanText(a + b) == a + CleanText(b)
  {
    if a == [] {
      assert a + b == b;
    } else {
      var c, rest := a[0], a[1..];
      SplitFirst(a, b);
      CleanCopiesFirst(c, rest + b);
      CleanPlainPrefix(rest, b);
      SplitFirst(a, CleanText(b));
    }
  }

  lemma CleanColourPrefix(p: string, b: string)
    requires forall m :: 0 <= m < |p| ==> IsParamChar(p[m])
    ensures CleanText([Esc, '['] + p + "m" + b) == CleanText(b)
  {
    var t := [Esc, '['] + p + "m" + b;
    assert t[2..] == p + "m" + b;
    ParamRunExact(p, "m" + b);
    assert t[2 + |p|] == 'm';
    assert SgrLength(t) == Some(|p| + 3);
    assert t[|p| + 3..] == b;
  }

  lemma {:induction false} ParamRunExact(p: string, rest: string)
    requires forall m :: 0 <= m < |p| ==> IsParamChar(p[m])
    requires rest != [] && !IsParamChar(rest[0])
    ensures ParamRun(p + rest) == |p|
  {
    if p != [] {
      assert (p + rest)[0] == p[0];
      assert (p + rest)[1..] == p[1..] + rest;
      ParamRunExact(p[1..], rest);
    } else {
      assert p + rest == rest;
    }
  }

  /**
   * Against a reference: text built from plain pieces and well-formed colour
   * codes comes out as the plain pieces alone.
   */
  lemma {:induction false} CleanRemovesColourCodes(cs: seq<Chunk>)
    requires forall i :: 0 <= i < |cs| ==> WellFormedChunk(cs[i])
    ensures CleanText(Render(cs)) == PlainPart(cs)
  {
    if cs != [] {
      CleanRemovesColourCodes(cs[1..]);
      match cs[0]
      case Plain(s) =>
        CleanPlainPrefix(s, Render(cs[1..]));
      case Colour(p) =>
        assert WellFormedChunk(cs[0]);
        CleanColourPrefix(p, Render(cs[1..]));
    }
  }

  /**
   * A single pass does not reach a fixed point: removing an inner code can
   * join the characters around it into a new one.
   */
  lemma CleanSinglePass()
    ensures var t := [Esc, Esc, '[', 'm', '[', 'm'];
            CleanText(t) == [Esc, '[', 'm'] && CleanText(CleanText(t)) == []
  {
    var t := [Esc, Esc, '[', 'm', '[', 'm'];
    assert SgrLength(t) == None;
    var u := t[1..];
    assert u == [Esc, '[', 'm', '[', 'm'];
    assert ParamRun(u[2..]) == 0;
    assert SgrLength(u) == Some(3);
    assert u[3..] == ['[', 'm'];
    CleanNoEscape(['[', 'm']);
    var c := [Esc, '[', 'm'];
    assert ParamRun(c[2..]) == 0;
    assert SgrLength(c) == Some(3);
    assert c[3..] == [];
  }
}
