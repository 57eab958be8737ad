/** The startup-command template language of an egg: literal text with `{{NAME}}`
    placeholders, its server-side expansion (`substitute`) and the browser's preview
    of the same expansion (`renderStartup`). */
module StartupTemplate {

  import opened Options

  /** A template is a chain of literal/placeholder segments ended by a literal. */
  datatype Template =
    | Tail(text: string)
    | Seg(lit: string, body: string, rest: Template)

  // ----- Locating the delimiters -----

  predicate PairAt(s: string, c: char, j: int) {
    0 <= j && j + 1 < |s| && s[j] == c && s[j + 1] == c
  }

  /** The first position holding `c` twice in a row, or -1 (`strings.Index`). */
  function FirstPair(s: string, c: char): (i: int)
    ensures i == -1 || PairAt(s, c, i)
    ensures forall j | 0 <= j < |s| && PairAt(s, c, j) :: 0 <= i <= j
  {
    if |s| < 2 then -1
    else if s[0] == c && s[1] == c then 0
    else
      var r := FirstPair(s[1..], c);
      assert forall j | 0 < j < |s| && PairAt(s, c, j) :: PairAt(s[1..], c, j - 1);
      if r < 0 then -1 else r + 1
  }

  /** Text followed by `cc` has its first `cc` right there exactly when no earlier pair
      exists, not even one made with the text's last character. */
  lemma FirstPairAfter(pre: string, c: char, post: string)
    ensures 0 <= FirstPair(pre + [c, c] + post, c) <= |pre|
    ensures FirstPair(pre + [c, c] + post, c) == |pre| <==> FirstPair(pre + [c], c) < 0
  {
    var s, p := pre + [c, c] + post, pre + [c];
    assert PairAt(s, c, |pre|);
    var f, g := FirstPair(s, c), FirstPair(p, c);
    assert PairAt(s, c, f);
    if f < |pre| { assert PairAt(p, c, f); }
    if g >= 0 { assert PairAt(p, c, g) && PairAt(s, c, g); }
  }

  /** The closing delimiter is searched for from the opening one, whose own characters
      can never take part in it. */
  lemma FirstPairShift(open: char, close: char, u: string)
    requires open != close
    ensures FirstPair([open, open] + u, close) == (if FirstPair(u, close) < 0 then -1 else FirstPair(u, close) + 2)
  {
  }

  // ----- Printing and parsing -----

  function Print(t: Template): string {
    match t
    case Tail(text) => text
    case Seg(lit, body, rest) => lit + "{{" + (body + "}}" + Print(rest))
  }

  /** A placeholder whose two ends cannot be mistaken for earlier delimiters. */
  predicate Delimited(lit: string, body: string) {
    FirstPair(lit + "{", '{') < 0 && FirstPair(body + "}", '}') < 0
  }

  /** Templates whose delimiters are found where they were written. */
  predicate Canonical(t: Template) {
    match t
    case Tail(text) =>
      var i := FirstPair(text, '{');
      i < 0 || FirstPair(text[i..], '}') < 0
    case Seg(lit, body, rest) =>
      Delimited(lit, body) && Canonical(rest)
  }

  /** The first placeholder of `s`: where it opens and closes, or `None` if there is none. */
  function FirstHole(s: string): (h: Option<(nat, nat)>)
    ensures h.Some? ==> h.value.0 + 2 <= h.value.1 && h.value.1 + 2 <= |s|
  {
    var start := FirstPair(s, '{');
    if start < 0 then None
    else
      var end := FirstPair(s[start..], '}');
      if end < 0 then None
      else
        assert PairAt(s, '{', start) && PairAt(s[start..], '}', end);
        Some((start, start + end))
  }

  lemma HoleBraces(s: string, open: nat, close: nat)
    requires FirstHole(s) == Some((open, close))
    ensures s[open..close + 2] == "{{" + s[open + 2..close] + "}}"
  {
    assert PairAt(s, '{', open) && PairAt(s[open..], '}', close - open);
  }

  /** How the expander reads a string, left to right. */
  function Parse(s: string): Template
    decreases |s|
  {
    match FirstHole(s)
    case None => Tail(s)
    case Some((open, close)) => Seg(s[..open], s[open + 2..close], Parse(s[close + 2..]))
  }

  lemma {:induction false} PrintParse(s: string)
    ensures Print(Parse(s)) == s
    decreases |s|
  {
    var h := FirstHole(s);
    if h.Some? {
      var (open, close) := h.value;
      var u := s[close + 2..];
      PrintParse(u);
      HoleBraces(s, open, close);
      assert s == s[..open] + s[open..close + 2] + u;
      assert s[..open] + "{{" + (s[open + 2..close] + "}}" + u) == s[..open] + s[open..close + 2] + u;
    }
  }

  /** The closing delimiter of a placeholder that starts the text. */
  lemma CloseOfHole(body: string, post: string)
    ensures 2 <= FirstPair("{{" + (body + "}}" + post), '}') <= |body| + 2
    ensures FirstPair("{{" + (body + "}}" + post), '}') == |body| + 2 <==> FirstPair(body + "}", '}') < 0
  {
    FirstPairShift('{', '}', body + "}}" + post);
    FirstPairAfter(body, '}', post);
  }

  lemma FirstHoleOf(lit: string, body: string, post: string)
    ensures FirstHole(lit + "{{" + (body + "}}" + post)).Some?
    ensures FirstHole(lit + "{{" + (body + "}}" + post)) == Some((|lit|, |lit| + 2 + |body|)) <==> Delimited(lit, body)
  {
    var u := body + "}}" + post;
    var s := lit + "{{" + u;
    FirstPairAfter(lit, '{', u);
    var start := FirstPair(s, '{');
    if start == |lit| {
      assert s[start..] == "{{" + u;
      CloseOfHole(body, post);
    } else {
      assert PairAt(s[start..], '}', |lit| - start + 2 + |body|);
    }
  }

  lemma ParseSegment(lit: string, body: string, post: string)
    ensures Parse(lit + "{{" + (body + "}}" + post)).Seg?
    ensures var t := Parse(lit + "{{" + (body + "}}" + post));
            if Delimited(lit, body) then t == Seg(lit, body, Parse(post)) else t.lit != lit || t.body != body
  {
    hide FirstHole, Delimited;
    var s := lit + "{{" + (body + "}}" + post);
    FirstHoleOf(lit, body, post);
    var (open, close) := FirstHole(s).value;
    assert |s[..open]| == open && |s[open + 2..close]| == close - open - 2;
    if Delimited(lit, body) {
      assert s[..open] == lit && s[open + 2..close] == body && s[close + 2..] == post;
    }
  }

  /** Reading back a printed template gives the same template exactly when it is canonical. */
  lemma {:induction false} ParsePrint(t: Template)
    ensures Parse(Print(t)) == t <==> Canonical(t)
  {
    match t
    case Tail(_) =>
    case Seg(lit, body, rest) =>
      ParseSegment(lit, body, Print(rest));
      ParsePrint(rest);
  }

  /** Every string is the print of exactly one canonical template, the one `Parse` finds. */
  lemma ParseCanonical(s: string)
    ensures Print(Parse(s)) == s && Canonical(Parse(s))
    ensures forall t | Canonical(t) && Print(t) == s :: t == Parse(s)
  {
    PrintParse(s);
    ParsePrint(Parse(s));
    forall t | Canonical(t) && Print(t) == s ensures t == Parse(s) { ParsePrint(t); }
  }

  // ----- Expansion on the server -----

  /** `unicode.IsSpace`, the characters `strings.TrimSpace` removes. */
  predicate IsGoSpace(c: char) {
    || c == ' ' || '\t' <= c <= '\r' || c == '\U{0085}' || c == '\U{00A0}' || c == '\U{1680}'
    || '\U{2000}' <= c <= '\U{200A}' || c == '\U{2028}' || c == '\U{2029}' || c == '\U{202F}'
    || c == '\U{205F}' || c == '\U{3000}'
  }

  function Trim(s: string, space: char -> bool): (r: string)
    ensures |r| <= |s|
    ensures r == "" || (!space(r[0]) && !space(r[|r| - 1]))
  {
    if s == "" then s
    else if space(s[0]) then Trim(s[1..], space)
    else if space(s[|s| - 1]) then Trim(s[..|s| - 1], space)
    else s
  }

  /** What one placeholder expands to; an unknown name stays as it was written. */
  function HoleText(body: string, values: map<string, string>): string {
    var token := Trim(body, IsGoSpace);
    if token in values then values[token] else "{{" + body + "}}"
  }

  function Eval(t: Template, values: map<string, string>): string {
    match t
    case Tail(text) => text
    case Seg(lit, body, rest) => lit + HoleText(body, values) + Eval(rest, values)
  }

  lemma EvalStep(s: string, open: nat, close: nat, values: map<string, string>)
    requires FirstHole(s) == Some((open, close))
    ensures Eval(Parse(s), values)
            == s[..open] + HoleText(s[open + 2..close], values) + Eval(Parse(s[close + 2..]), values)
  {
    hide FirstHole, HoleText;
  }

  lemma Regroup(a: string, b: string, c: string, d: string)
    ensures a + b + c + d == a + (b + c + d)
  {
  }

  /** Writing the literal and the placeholder's text, and moving on behind it, leaves the
      final output unchanged. */
  lemma EvalAdvance(out: string, s: string, open: nat, close: nat, values: map<string, string>)
    requires FirstHole(s) == Some((open, close))
    ensures out + s[..open] + HoleText(s[open + 2..close], values) + Eval(Parse(s[close + 2..]), values)
            == out + Eval(Parse(s), values)
  {
    EvalStep(s, open, close, values);
    var text, rest := HoleText(s[open + 2..close], values), Eval(Parse(s[close + 2..]), values);
    Regroup(out, s[..open], text, rest);
  }

  lemma EvalWithoutHole(s: string, values: map<string, string>)
    requires FirstHole(s).None?
    ensures Eval(Parse(s), values) == s
  {
  }

  /** The expander: one left-to-right pass that never looks at inserted values again. */
  method Substitute(template: string, values: map<string, string>) returns (out: string)
    ensures out == Eval(Parse(template), values)
  {
    hide Eval, Parse, Trim;
    out := "";
    var s := template;
    assert "" + Eval(Parse(s), values) == Eval(Parse(s), values);
    while true
      invariant out + Eval(Parse(s), values) == Eval(Parse(template), values)
      decreases |s|
    {
      var start := FirstPair(s, '{');
      if start < 0 {
        EvalWithoutHole(s, values);
        out := out + s;
        break;
      }
      var end := FirstPair(s[start..], '}');
      if end < 0 {
        EvalWithoutHole(s, values);
        out := out + s;
        break;
      }
      end := end + start;
      assert FirstHole(s) == Some((start, end));
      EvalAdvance(out, s, start, end, values);
      HoleBraces(s, start, end);
      var token := Trim(s[start + 2..end], IsGoSpace);
      var inserted := if token in values then values[token] else s[start..end + 2];
      assert inserted == HoleText(s[start + 2..end], values);
      out := out + s[..start] + inserted;
      s := s[end + 2..];
    }
  }

  // ----- Preview in the browser -----

  /** JavaScript's `\s`: it knows the byte order mark but not U+0085. */
  predicate IsJsSpace(c: char) {
    c == '\U{FEFF}' || (IsGoSpace(c) && c != '\U{0085}')
  }

  predicate IsWordChar(c: char) {
    'A' <= c <= 'Z' || 'a' <= c <= 'z' || '0' <= c <= '9' || c == '_'
  }

  predicate IsName(s: string) {
    s != "" && forall i | 0 <= i < |s| :: IsWordChar(s[i])
  }

  /** The regular expression's reading of the text between the braces:
      `\s*([A-Za-z0-9_]+)\s*`, giving the captured name. */
  ghost predicate Captures(body: string, name: string) {
    exists left, right :: Padding(left) && Padding(right) && body == left + name + right && IsName(name)
  }

  predicate Padding(s: string) {
    forall i | 0 <= i < |s| :: IsJsSpace(s[i])
  }

  function CapturedName(body: string): Option<string> {
    var name := Trim(body, IsJsSpace);
    if IsName(name) then Some(name) else None
  }

  lemma {:induction false} TrimRight(name: string, right: string, space: char -> bool)
    requires name != "" && !space(name[0]) && !space(name[|name| - 1])
    requires forall i | 0 <= i < |right| :: space(right[i])
    ensures Trim(name + right, space) == name
  {
    var s := name + right;
    assert s[0] == name[0];
    if right == "" {
      assert s == name;
    } else {
      assert s[|s| - 1] == right[|right| - 1];
      assert s[..|s| - 1] == name + right[..|right| - 1];
      TrimRight(name, right[..|right| - 1], space);
    }
  }

  lemma {:induction false} TrimLeft(left: string, text: string, space: char -> bool)
    requires forall i | 0 <= i < |left| :: space(left[i])
    ensures Trim(left + text, space) == Trim(text, space)
  {
    if left == "" {
      assert left + text == text;
    } else {
      assert (left + text)[0] == left[0] && (left + text)[1..] == left[1..] + text;
      TrimLeft(left[1..], text, space);
    }
  }

  /** Text without spaces at its ends comes out of any padding as it went in. */
  lemma TrimPadded(left: string, text: string, right: string, space: char -> bool)
    requires forall i | 0 <= i < |left| :: space(left[i])
    requires forall i | 0 <= i < |right| :: space(right[i])
    requires text == "" || (!space(text[0]) && !space(text[|text| - 1]))
    ensures Trim(left + text + right, space) == text
  {
    hide Trim;
    Associate(left, text, right);
    TrimLeft(left, text + right, space);
    if text == "" {
      TrimAll(right, space);
      assert text + right == right;
    } else {
      TrimRight(text, right, space);
    }
  }

  lemma {:induction false} TrimAll(s: string, space: char -> bool)
    requires forall i | 0 <= i < |s| :: space(s[i])
    ensures Trim(s, space) == ""
  {
    if s != "" { TrimAll(s[1..], space); }
  }

  lemma {:induction false} TrimSplits(s: string) returns (left: string, right: string)
    ensures Padding(left) && Padding(right) && s == left + Trim(s, IsJsSpace) + right
  {
    left, right := "", "";
    if s == "" {
    } else if IsJsSpace(s[0]) {
      left, right := TrimSplits(s[1..]);
      assert s == [s[0]] + s[1..];
      left := [s[0]] + left;
    } else if IsJsSpace(s[|s| - 1]) {
      left, right := TrimSplits(s[..|s| - 1]);
      assert s == s[..|s| - 1] + [s[|s| - 1]];
      right := right + [s[|s| - 1]];
    }
  }

  /** Trimming finds the capture of the regular expression, and there is at most one. */
  lemma CapturedNameIsMatch(body: string, name: string)
    ensures Captures(body, name) <==> CapturedName(body) == Some(name)
  {
    if Captures(body, name) {
      var left, right :| Padding(left) && Padding(right) && body == left + name + right && IsName(name);
      assert IsWordChar(name[0]) && IsWordChar(name[|name| - 1]);
      TrimPadded(left, name, right, IsJsSpace);
    }
    if CapturedName(body) == Some(name) {
      var left, right := TrimSplits(body);
    }
  }

  /** A match of the whole placeholder at the start of `s`: its body, which cannot contain
      a brace and so ends at the first `}}`. */
  function MatchAt(s: string): (m: Option<string>)
    ensures m.Some? ==> "{{" + m.value + "}}" <= s
  {
    var end := FirstPair(s, '}');
    if |s| < 2 || s[0] != '{' || s[1] != '{' || end < 0 then None
    else
      assert PairAt(s, '}', end);
      var body := s[2..end];
      assert s == "{{" + body + "}}" + s[end + 2..];
      if CapturedName(body).Some? then Some(body) else None
  }

  /** `renderStartup`: replace every match, scanning left to right; a match whose name is
      unknown is kept. */
  function Render(s: string, values: map<string, string>): string
    decreases |s|
  {
    if s == "" then ""
    else
      match MatchAt(s)
      case Some(body) =>
        var name := CapturedName(body).value;
        (if name in values then values[name] else "{{" + body + "}}") + Render(s[|body| + 4..], values)
      case None => s[..1] + Render(s[1..], values)
  }

  predicate NoMatchBefore(s: string, n: nat) {
    forall k | 0 <= k < n && k <= |s| :: MatchAt(s[k..]).None?
  }

  lemma RenderOne(s: string, values: map<string, string>)
    requires s != "" && MatchAt(s).None?
    ensures Render(s, values) == s[..1] + Render(s[1..], values)
  {
  }

  /** Text in which no match can start is copied unchanged. */
  lemma {:induction false} RenderCopies(s: string, n: nat, values: map<string, string>)
    requires n <= |s| && NoMatchBefore(s, n)
    ensures Render(s, values) == s[..n] + Render(s[n..], values)
  {
    hide Render, MatchAt;
    if n == 0 {
      assert s[0..] == s;
    } else {
      RenderCopies(s, n - 1, values);
      RenderCopiesOne(s, n, values);
    }
  }

  lemma RenderCopiesOne(s: string, n: nat, values: map<string, string>)
    requires 0 < n <= |s| && MatchAt(s[n - 1..]).None?
    ensures s[..n - 1] + Render(s[n - 1..], values) == s[..n] + Render(s[n..], values)
  {
    hide Render, MatchAt;
    var u := s[n - 1..];
    RenderOne(u, values);
    assert u[1..] == s[n..] && s[..n - 1] + u[..1] == s[..n];
    Associate(s[..n - 1], u[..1], Render(s[n..], values));
  }

  lemma NoMatchInLiteral(lit: string, u: string)
    requires FirstPair(lit + "{", '{') < 0
    ensures NoMatchBefore(lit + ("{{" + u), |lit|)
  {
    var s := lit + ("{{" + u);
    forall k | 0 <= k < |lit| ensures MatchAt(s[k..]).None? {
      assert !PairAt(lit + "{", '{', k);
      assert s[k + 1] == (lit + "{")[k + 1];
      NoMatchWithoutPair(s[k..]);
    }
  }

  lemma NoMatchInTail(text: string)
    requires Canonical(Tail(text))
    ensures NoMatchBefore(text, |text|)
  {
    var i := FirstPair(text, '{');
    forall k | 0 <= k < |text| ensures MatchAt(text[k..]).None? {
      if PairAt(text, '{', k) {
        var e := FirstPair(text[k..], '}');
        if e >= 0 {
          assert PairAt(text[k..], '}', e);
          assert PairAt(text[i..], '}', k + e - i);
          assert false;
        }
      }
    }
  }

  lemma MatchAtHole(body: string, post: string)
    requires FirstPair(body + "}", '}') < 0
    ensures MatchAt("{{" + (body + "}}" + post)) == if CapturedName(body).Some? then Some(body) else None
  {
    CloseOfHole(body, post);
    assert ("{{" + (body + "}}" + post))[2..|body| + 2] == body;
  }

  // ----- What the preview makes of one placeholder -----

  /** A match that ends with the placeholder and whose braces are characters k and k+1 of it:
      at k = 0 the whole placeholder, later a part that starts inside. */
  predicate MatchFrom(body: string, k: nat) {
    k <= |body| && PairAt("{{" + body, '{', k) && CapturedName(body[k..]).Some?
  }

  lemma CaptureHasNoBrace(body: string)
    requires CapturedName(body).Some?
    ensures '{' !in body
  {
    var left, right := TrimSplits(body);
    var name := Trim(body, IsJsSpace);
    forall i | 0 <= i < |body| ensures body[i] != '{' {
      if |left| <= i < |left| + |name| { assert body[i] == name[i - |left|]; }
    }
  }

  lemma MatchIsUnique(body: string, j: nat, k: nat)
    requires MatchFrom(body, j) && MatchFrom(body, k)
    ensures j == k
  {
    var low, high := if j < k then j else k, if j < k then k else j;
    if low < high {
      assert ("{{" + body)[high + 1] == body[high - 1] == body[low..][high - 1 - low];
      CaptureHasNoBrace(body[low..]);
    }
  }

  function Hole(body: string): string {
    "{{" + body + "}}"
  }

  lemma HoleFrom(body: string, post: string, k: nat)
    requires k <= |body| && PairAt("{{" + body, '{', k)
    ensures (Hole(body) + post)[k..] == "{{" + (body[k..] + "}}" + post)
    ensures ("{{" + body)[..k] + Hole(body[k..]) == Hole(body)
  {
    assert "{{" + body == ("{{" + body)[..k] + "{{" + body[k..];
  }

  lemma NoPairLater(body: string, k: nat)
    requires k <= |body| && FirstPair(body + "}", '}') < 0
    ensures FirstPair(body[k..] + "}", '}') < 0
  {
    var i := FirstPair(body[k..] + "}", '}');
    if i >= 0 { assert PairAt(body + "}", '}', i + k); }
  }

  lemma NoMatchWithoutPair(s: string)
    requires !PairAt(s, '{', 0)
    ensures MatchAt(s).None?
  {
  }

  lemma NoPairInside(body: string, post: string, k: nat)
    requires k < |body| + 4 && !(k <= |body| && PairAt("{{" + body, '{', k))
    ensures !PairAt((Hole(body) + post)[k..], '{', 0)
  {
    var s := Hole(body) + post;
    if k <= |body| {
      assert s[k] == ("{{" + body)[k] && s[k + 1] == ("{{" + body)[k + 1];
    } else {
      assert s[k] == '}' || s[k + 1] == '}';
    }
  }

  /** Inside a placeholder the regular expression matches exactly where `MatchFrom` says. */
  lemma MatchInside(body: string, post: string, k: nat)
    requires FirstPair(body + "}", '}') < 0 && k < |body| + 4
    ensures MatchAt((Hole(body) + post)[k..]) == if MatchFrom(body, k) then Some(body[k..]) else None
  {
    hide MatchAt, CapturedName, FirstPair, PairAt;
    if k <= |body| && PairAt("{{" + body, '{', k) {
      HoleFrom(body, post, k);
      NoPairLater(body, k);
      MatchAtHole(body[k..], post);
    } else {
      NoPairInside(body, post, k);
      NoMatchWithoutPair((Hole(body) + post)[k..]);
    }
  }

  function Replacement(body: string, values: map<string, string>): string {
    var name := CapturedName(body);
    if name.Some? && name.value in values then values[name.value] else Hole(body)
  }

  ghost function PreviewText(body: string, values: map<string, string>): string {
    if exists k: nat :: MatchFrom(body, k) then
      var k: nat :| MatchFrom(body, k);
      ("{{" + body)[..k] + Replacement(body[k..], values)
    else Hole(body)
  }

  lemma PreviewTextAt(body: string, k: nat, values: map<string, string>)
    requires MatchFrom(body, k)
    ensures PreviewText(body, values) == ("{{" + body)[..k] + Replacement(body[k..], values)
  {
    var j: nat :| MatchFrom(body, j)
        && PreviewText(body, values) == ("{{" + body)[..j] + Replacement(body[j..], values);
    MatchIsUnique(body, j, k);
  }

  lemma RenderHole(body: string, post: string, values: map<string, string>)
    requires FirstPair(body + "}", '}') < 0
    ensures Render(Hole(body) + post, values) == PreviewText(body, values) + Render(post, values)
  {
    var s := Hole(body) + post;
    if k: nat :| MatchFrom(body, k) {
      forall j | 0 <= j < k ensures MatchAt(s[j..]).None? {
        MatchInside(body, post, j);
        if MatchFrom(body, j) { MatchIsUnique(body, j, k); }
      }
      MatchInside(body, post, k);
      RenderMatched(body, post, k, values);
    } else {
      forall j | 0 <= j < |body| + 4 ensures MatchAt(s[j..]).None? { MatchInside(body, post, j); }
      RenderCopies(s, |body| + 4, values);
      assert s[..|body| + 4] == Hole(body) && s[|body| + 4..] == post;
    }
  }

  lemma RenderAtMatch(s: string, body: string, values: map<string, string>)
    requires MatchAt(s) == Some(body)
    ensures Render(s, values) == Replacement(body, values) + Render(s[|body| + 4..], values)
  {
  }

  lemma RenderMatched(body: string, post: string, k: nat, values: map<string, string>)
    requires MatchFrom(body, k) && NoMatchBefore(Hole(body) + post, k)
    requires MatchAt((Hole(body) + post)[k..]) == Some(body[k..])
    ensures Render(Hole(body) + post, values) == PreviewText(body, values) + Render(post, values)
  {
    hide Render, MatchAt, Replacement, PreviewText, CapturedName;
    var s, before, text := Hole(body) + post, ("{{" + body)[..k], Replacement(body[k..], values);
    PreviewTextAt(body, k, values);
    RenderCopies(s, k, values);
    RenderAtMatch(s[k..], body[k..], values);
    assert s[k..][|body[k..]| + 4..] == post;
    assert s[..k] == before;
    Associate(before, text, Render(post, values));
  }

  lemma Associate(a: string, b: string, c: string)
    ensures a + (b + c) == a + b + c
  {
  }

  lemma RenderSegment(lit: string, body: string, post: string, values: map<string, string>)
    requires Delimited(lit, body)
    ensures Render(lit + "{{" + (body + "}}" + post), values)
            == lit + PreviewText(body, values) + Render(post, values)
  {
    var u := Hole(body) + post;
    var s := lit + u;
    assert s == lit + ("{{" + (body + "}}" + post)) == lit + "{{" + (body + "}}" + post);
    NoMatchInLiteral(lit, body + "}}" + post);
    RenderCopies(s, |lit|, values);
    assert s[|lit|..] == u && s[..|lit|] == lit;
    RenderHole(body, post, values);
    Associate(lit, PreviewText(body, values), Render(post, values));
  }

  // ----- When the preview shows the server's expansion -----

  /** With exactly `names` declared, both sides replace the whole placeholder by the same
      variable, or neither replaces any part of it. */
  predicate Agrees(body: string, names: set<string>) {
    var server, preview := Trim(body, IsGoSpace), CapturedName(body);
    if preview.Some? && preview.value in names then server == preview.value
    else
      && server !in names
      && forall k | 1 <= k <= |body| && MatchFrom(body, k) :: CapturedName(body[k..]).value !in names
  }

  predicate Exact(t: Template, names: set<string>) {
    match t
    case Tail(_) => true
    case Seg(_, body, rest) => Agrees(body, names) && Exact(rest, names)
  }

  lemma SameText(body: string, values: map<string, string>)
    requires Agrees(body, values.Keys)
    ensures PreviewText(body, values) == HoleText(body, values)
  {
    if k: nat :| MatchFrom(body, k) {
      PreviewTextAt(body, k, values);
      HoleFrom(body, "", k);
      assert body[0..] == body;
      if k > 0 && CapturedName(body).Some? {
        assert MatchFrom(body, 0);
        MatchIsUnique(body, 0, k);
      }
    }
    if CapturedName(body).Some? { assert body[0..] == body && MatchFrom(body, 0); }
  }

  /** Otherwise there are values for those names that make the two texts differ at a
      position both have. */
  lemma DifferentText(body: string, names: set<string>) returns (values: map<string, string>, d: nat)
    requires !Agrees(body, names)
    ensures values.Keys == names
    ensures d < |PreviewText(body, values)| && d < |HoleText(body, values)|
    ensures PreviewText(body, values)[d] != HoleText(body, values)[d]
  {
    hide Trim, CapturedName;
    var server, preview := Trim(body, IsGoSpace), CapturedName(body);
    values := map n | n in names :: if n == server then "x" else "y";
    assert body[0..] == body;
    if preview.Some? && preview.value in names {
      assert MatchFrom(body, 0);
      PreviewTextAt(body, 0, values);
      d := 0;
    } else if server in names {
      if k: nat :| MatchFrom(body, k) { PreviewTextAt(body, k, values); }
      d := 0;
    } else {
      var k :| 1 <= k <= |body| && MatchFrom(body, k) && CapturedName(body[k..]).value in names;
      PreviewTextAt(body, k, values);
      d := k;
    }
  }

  lemma {:induction false} ExactIsSame(t: Template, values: map<string, string>)
    requires Canonical(t) && Exact(t, values.Keys)
    ensures Render(Print(t), values) == Eval(t, values)
  {
    match t
    case Tail(text) =>
      NoMatchInTail(text);
      RenderCopies(text, |text|, values);
      assert text[|text|..] == "";
    case Seg(lit, body, rest) =>
      RenderSegment(lit, body, Print(rest), values);
      SameText(body, values);
      ExactIsSame(rest, values);
  }

  lemma FrontDiffers(front: string, a: string, b: string, x: string, y: string, d: nat)
    requires (d < |a| && d < |b| && a[d] != b[d]) || (a == b && x != y)
    ensures front + a + x != front + b + y
  {
    var l, r := front + a + x, front + b + y;
    assert l[|front| + |a|..] == x && r[|front| + |b|..] == y;
    if a != b {
      assert l[|front| + d] == a[d] && r[|front| + d] == b[d];
    }
  }

  lemma {:induction false} InexactDiffers(t: Template, names: set<string>) returns (values: map<string, string>)
    requires Canonical(t) && !Exact(t, names)
    ensures values.Keys == names && Render(Print(t), values) != Eval(t, values)
  {
    var Seg(lit, body, rest) := t;
    var d := 0;
    if Agrees(body, names) {
      values := InexactDiffers(rest, names);
      SameText(body, values);
    } else {
      values, d := DifferentText(body, names);
    }
    RenderSegment(lit, body, Print(rest), values);
    FrontDiffers(lit, PreviewText(body, values), HoleText(body, values), Render(Print(rest), values), Eval(rest,
        values), d);
  }

  /** For every string a user may type and every set of declared names: the preview shows the
      server's expansion for all values of those names if and only if each placeholder agrees. */
  lemma PreviewExactly(s: string, names: set<string>)
    ensures Exact(Parse(s), names) <==>
            forall values: map<string, string> | values.Keys == names :: Render(s, values) == Eval(Parse(s), values)
  {
    ParseCanonical(s);
    if Exact(Parse(s), names) {
      forall values: map<string, string> | values.Keys == names ensures Render(s, values) == Eval(Parse(s), values) {
        ExactIsSame(Parse(s), values);
      }
    } else {
      var values := InexactDiffers(Parse(s), names);
    }
  }

  // ----- When all declared names are words -----

  predicate NamedByWords(values: map<string, string>) {
    forall k | k in values :: IsName(k)
  }

  /** Both sides read the same name, or neither reads a usable one. */
  predicate NamesAgree(body: string) {
    var server, preview := Trim(body, IsGoSpace), CapturedName(body);
    if IsName(server) then preview == Some(server) else preview == None
  }

  predicate ExactForWords(t: Template) {
    match t
    case Tail(_) => true
    case Seg(_, body, rest) =>
      && NamesAgree(body) && (forall k | 1 <= k <= |body| :: !MatchFrom(body, k))
      && ExactForWords(rest)
  }

  lemma {:induction false} WordsAreExact(t: Template, names: set<string>)
    requires ExactForWords(t) && forall n | n in names :: IsName(n)
    ensures Exact(t, names)
  {
    if t.Seg? { WordsAreExact(t.rest, names); }
  }

  lemma {:induction false} SomeWordsAreInexact(t: Template) returns (names: set<string>)
    requires !ExactForWords(t)
    ensures (forall n | n in names :: IsName(n)) && !Exact(t, names)
  {
    var server, preview := Trim(t.body, IsGoSpace), CapturedName(t.body);
    if !NamesAgree(t.body) {
      names := if IsName(server) then {server} else {preview.value};
    } else if k :| 1 <= k <= |t.body| && MatchFrom(t.body, k) {
      names := {CapturedName(t.body[k..]).value};
      assert ("{{" + t.body)[k + 1] == t.body[k - 1];
      if preview.Some? { CaptureHasNoBrace(t.body); }
    } else {
      names := SomeWordsAreInexact(t.rest);
    }
  }

  /** With names that are words, the preview is right for all values if and only if no
      placeholder is read as two names and none holds the start of another known one. */
  lemma PreviewOfWordsExactly(s: string)
    ensures ExactForWords(Parse(s)) <==>
            forall values | NamedByWords(values) :: Render(s, values) == Eval(Parse(s), values)
  {
    if ExactForWords(Parse(s)) {
      forall values | NamedByWords(values) ensures Render(s, values) == Eval(Parse(s), values) {
        WordsAreExact(Parse(s), values.Keys);
        ParseCanonical(s);
        ExactIsSame(Parse(s), values);
      }
    } else {
      var names := SomeWordsAreInexact(Parse(s));
      ParseCanonical(s);
      var values := InexactDiffers(Parse(s), names);
      assert NamedByWords(values);
    }
  }

  lemma {:induction false} TrimSame(s: string)
    requires '\U{0085}' !in s && '\U{FEFF}' !in s
    ensures Trim(s, IsGoSpace) == Trim(s, IsJsSpace)
  {
    if s != "" {
      assert s[0] in s && s[|s| - 1] in s;
      if IsGoSpace(s[0]) {
        TrimSame(s[1..]);
      } else if IsGoSpace(s[|s| - 1]) {
        TrimSame(s[..|s| - 1]);
      }
    }
  }

  /** An ordinary placeholder, without an inner brace, U+0085 or byte order mark, is shown
      right exactly unless it names a declared variable whose name is no word. */
  lemma OrdinaryAgreesExactly(body: string, names: set<string>)
    requires '\U{0085}' !in body && '\U{FEFF}' !in body && '{' !in body
    ensures Agrees(body, names) <==> (Trim(body, IsGoSpace) in names ==> IsName(Trim(body, IsGoSpace)))
  {
    TrimSame(body);
    forall k | 1 <= k <= |body| ensures !MatchFrom(body, k) {
      assert ("{{" + body)[k + 1] == body[k - 1];
    }
  }

  // ----- The three ways to differ -----

  lemma RenderEmpty(values: map<string, string>)
    ensures Render("", values) == ""
  {
  }

  lemma NoPairInOne()
    ensures FirstPair("" + "{", '{') < 0
  {
  }

  lemma LoneHole(body: string, values: map<string, string>)
    requires FirstPair(body + "}", '}') < 0
    ensures Eval(Parse(Hole(body)), values) == HoleText(body, values)
    ensures Render(Hole(body), values) == PreviewText(body, values)
  {
    hide HoleText, PreviewText, Render, FirstHole, FirstPair;
    assert Hole(body) == "" + "{{" + (body + "}}" + "") == Hole(body) + "";
    assert Delimited("", body) by { NoPairInOne(); }
    ParseSegment("", body, "");
    RenderHole(body, "", values);
    RenderEmpty(values);
    assert "" + HoleText(body, values) + "" == HoleText(body, values);
  }

  /** A declared name that the preview does not read, being no word as in `{{A-B}}` or padded
      with U+0085: the server inserts its value, the preview keeps the placeholder. */
  lemma NonWordName(body: string, values: map<string, string>)
    requires FirstPair(body + "}", '}') < 0 && forall k: nat :: !MatchFrom(body, k)
    requires Trim(body, IsGoSpace) in values
    ensures Eval(Parse(Hole(body)), values) == values[Trim(body, IsGoSpace)]
    ensures Render(Hole(body), values) == Hole(body)
  {
    LoneHole(body, values);
  }

  /** A known name at the end of an unfinished placeholder, as in `{{{A}}` or `{{a{{B}}`: the
      server keeps the whole text, the preview replaces the inner one. */
  lemma NestedName(body: string, k: nat, values: map<string, string>)
    requires FirstPair(body + "}", '}') < 0 && k >= 1 && MatchFrom(body, k)
    requires CapturedName(body[k..]).value in values && NamedByWords(values)
    ensures Eval(Parse(Hole(body)), values) == Hole(body)
    ensures Render(Hole(body), values) == ("{{" + body)[..k] + values[CapturedName(body[k..]).value]
  {
    LoneHole(body, values);
    PreviewTextAt(body, k, values);
    assert ("{{" + body)[k + 1] == body[k - 1];
    if IsName(Trim(body, IsGoSpace)) { NameHasNoBrace(body); }
  }

  lemma {:induction false} NameHasNoBrace(body: string)
    requires IsName(Trim(body, IsGoSpace))
    ensures '{' !in body
  {
    if body == "" {
    } else if IsGoSpace(body[0]) {
      NameHasNoBrace(body[1..]);
      assert body == [body[0]] + body[1..];
    } else if IsGoSpace(body[|body| - 1]) {
      NameHasNoBrace(body[..|body| - 1]);
      assert body == body[..|body| - 1] + [body[|body| - 1]];
    }
  }

  /** A name padded so that only one side reads it: that side alone replaces it. */
  lemma OddlyPaddedName(body: string, values: map<string, string>)
    requires FirstPair(body + "}", '}') < 0
    requires CapturedName(body).Some? && Trim(body, IsGoSpace) !in values && CapturedName(body).value in values
    ensures Eval(Parse(Hole(body)), values) == Hole(body)
    ensures Render(Hole(body), values) == values[CapturedName(body).value]
  {
    LoneHole(body, values);
    assert body[0..] == body && MatchFrom(body, 0);
    PreviewTextAt(body, 0, values);
  }

  // ----- Both sides, character by character -----

  /** The spaces of both sides, one by one. */
  lemma SpacesExactly(c: char)
    ensures IsGoSpace(c) <==>
            c in "\t\n\U{000B}\U{000C}\r \U{0085}\U{00A0}\U{1680}\U{2000}\U{2001}\U{2002}\U{2003}\U{2004}\U{2005}" ||
            c in "\U{2006}\U{2007}\U{2008}\U{2009}\U{200A}\U{2028}\U{2029}\U{202F}\U{205F}\U{3000}"
    ensures IsJsSpace(c) <==> c == '\U{FEFF}' || (IsGoSpace(c) && c != '\U{0085}')
  {
  }

  /** No `{{` in the literal, not even with the brace after it, and no `}}` in the body,
      not even with the brace after it. */
  predicate Apart(lit: string, body: string) {
    && (forall i | 0 <= i < |lit| :: lit[i] == '{' ==> i + 1 < |lit| && lit[i + 1] != '{')
    && (forall i | 0 <= i < |body| :: body[i] == '}' ==> i + 1 < |body| && body[i + 1] != '}')
  }

  lemma NoPairExactly(t: string, c: char)
    ensures FirstPair(t + [c], c) < 0 <==> forall i | 0 <= i < |t| :: t[i] == c ==> i + 1 < |t| && t[i + 1] != c
  {
    var u, k := t + [c], FirstPair(t + [c], c);
    if k >= 0 {
      assert PairAt(u, c, k) && t[k] == u[k];
    } else {
      forall i | 0 <= i < |t| && t[i] == c ensures i + 1 < |t| && t[i + 1] != c {
        assert u[i] == c && !PairAt(u, c, i) && u[i + 1] != c;
      }
    }
  }

  lemma ApartIsDelimited(lit: string, body: string)
    ensures Apart(lit, body) <==> Delimited(lit, body)
  {
    hide FirstPair;
    NoPairExactly(lit, '{');
    NoPairExactly(body, '}');
  }

  /** The server on any string that has a placeholder: the text before it, the value of what
      is left of it without the spaces around, and the expansion of the text behind it. */
  lemma ExpandsFirst(lit: string, left: string, token: string, right: string, post: string,
                     values: map<string, string>)
    requires Apart(lit, left + token + right)
    requires forall c | c in left || c in right :: IsGoSpace(c)
    requires token == "" || (!IsGoSpace(token[0]) && !IsGoSpace(token[|token| - 1]))
    ensures var hole := "{{" + (left + token + right) + "}}";
            Eval(Parse(lit + hole + post), values)
            == lit + (if token in values then values[token] else hole) + Eval(Parse(post), values)
  {
    hide *;
    var body := left + token + right;
    ApartIsDelimited(lit, body);
    EvalSegment(lit, body, post, values);
    HoleTextOf(left, token, right, values);
  }

  lemma HoleTextOf(left: string, token: string, right: string, values: map<string, string>)
    requires forall c | c in left || c in right :: IsGoSpace(c)
    requires token == "" || (!IsGoSpace(token[0]) && !IsGoSpace(token[|token| - 1]))
    ensures HoleText(left + token + right, values)
            == if token in values then values[token] else "{{" + (left + token + right) + "}}"
  {
    hide IsGoSpace, Trim;
    TrimPadded(left, token, right, IsGoSpace);
  }

  lemma EvalSegment(lit: string, body: string, post: string, values: map<string, string>)
    requires Delimited(lit, body)
    ensures Eval(Parse(lit + ("{{" + body + "}}") + post), values)
            == lit + HoleText(body, values) + Eval(Parse(post), values)
  {
    hide Delimited, HoleText, Parse;
    ParseSegment(lit, body, post);
    GroupHole(lit, body, post);
  }

  lemma GroupHole(lit: string, body: string, post: string)
    ensures lit + ("{{" + body + "}}") + post == lit + "{{" + (body + "}}" + post)
  {
  }

  /** Without a `{{` before a `}}` the text stays as it is on both sides. */
  lemma ExpandsNothing(s: string, values: map<string, string>)
    requires forall i, j | 0 <= i < j < |s| - 1 && s[i] == s[i + 1] == '{' :: s[j] != '}' || s[j + 1] != '}'
    ensures Eval(Parse(s), values) == s == Render(s, values)
  {
    hide Render, Eval, Parse;
    NoHole(s);
    EvalWithoutHole(s, values);
    NoMatchInTail(s);
    RenderCopies(s, |s|, values);
    RenderEmpty(values);
    assert s[..|s|] == s && s[|s|..] == "";
  }

  lemma NoHole(s: string)
    requires forall i, j | 0 <= i < j < |s| - 1 && s[i] == s[i + 1] == '{' :: s[j] != '}' || s[j + 1] != '}'
    ensures FirstHole(s).None? && Canonical(Tail(s))
  {
    if FirstHole(s).Some? { HolePairs(s, FirstHole(s).value.0, FirstHole(s).value.1); }
  }

  lemma HolePairs(s: string, open: nat, close: nat)
    requires FirstHole(s) == Some((open, close))
    ensures open < close < |s| - 1 && s[open] == s[open + 1] == '{' && s[close] == s[close + 1] == '}'
  {
    assert PairAt(s, '{', open) && PairAt(s[open..], '}', close - open);
  }

  /** An ordinary placeholder, a word with blanks or tabs around it: both sides put the
      value, if the name has one, and go on behind it; otherwise both keep it as written. */
  lemma WordExpands(lit: string, left: string, name: string, right: string, post: string, values: map<string, string>)
    requires forall i | 0 <= i < |lit| :: lit[i] == '{' ==> i + 1 < |lit| && lit[i + 1] != '{'
    requires forall c | c in left || c in right :: c == ' ' || c == '\t'
    requires name != "" && forall c | c in name :: 'A' <= c <= 'Z' || 'a' <= c <= 'z' || '0' <= c <= '9' || c == '_'
    ensures var hole := "{{" + (left + name + right) + "}}";
            var text := if name in values then values[name] else hole;
            && Eval(Parse(lit + hole + post), values) == lit + text + Eval(Parse(post), values)
            && Render(lit + hole + post, values) == lit + text + Render(post, values)
  {
    var body := left + name + right;
    assert Apart(lit, body) by {
      forall i | 0 <= i < |body| ensures body[i] != '}' {
        assert body[i] in left || body[i] in name || body[i] in right;
      }
    }
    assert name[0] in name && name[|name| - 1] in name;
    ExpandsFirst(lit, left, name, right, post, values);
    WordPreviewed(lit, left, name, right, post, values);
  }

  lemma WordPreviewed(lit: string, left: string, name: string, right: string, post: string, values: map<string, string>)
    requires Apart(lit, left + name + right)
    requires forall c | c in left || c in right :: c == ' ' || c == '\t'
    requires name != "" && forall c | c in name :: 'A' <= c <= 'Z' || 'a' <= c <= 'z' || '0' <= c <= '9' || c == '_'
    ensures var hole := "{{" + (left + name + right) + "}}";
            Render(lit + hole + post, values)
            == lit + (if name in values then values[name] else hole) + Render(post, values)
  {
    hide Render, PreviewText, Trim;
    var body := left + name + right;
    assert CapturedName(body) == Some(name) by {
      forall i | 0 <= i < |name| ensures IsWordChar(name[i]) { assert name[i] in name; }
      forall i | 0 <= i < |left| ensures IsJsSpace(left[i]) { assert left[i] in left; }
      forall i | 0 <= i < |right| ensures IsJsSpace(right[i]) { assert right[i] in right; }
      TrimPadded(left, name, right, IsJsSpace);
    }
    ApartIsDelimited(lit, body);
    RenderSegment(lit, body, post, values);
    assert body[0..] == body && MatchFrom(body, 0);
    PreviewTextAt(body, 0, values);
    GroupHole(lit, body, post);
    assert ("{{" + body)[..0] + Replacement(body, values) == Replacement(body, values);
  }
}
