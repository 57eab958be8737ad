/** Splitting the expanded startup command into the argument vector that the node runs. */
module CommandTokens {
  import opened StartupTemplate

  datatype Kind = Quote | Blank | Plain

  function CharKind(c: char): Kind {
    if c == '"' then Quote else if c == ' ' || c == '\t' then Blank else Plain
  }

  // ----- What the tokens of a text are -----
  // The definitions are generic in the alphabet: a command line is a sequence of
  // characters, a template a sequence of characters and placeholders.

  function Toggle(kind: Kind, quoted: bool): bool {
    quoted != kind.Quote?
  }

  /** Cuts the text at every blank outside quotes, keeping the quotes. */
  function Fields<T>(xs: seq<T>, kind: T -> Kind, quoted: bool): (fs: seq<seq<T>>)
    ensures |fs| >= 1
  {
    if xs == [] then [[]]
    else
      var k := kind(xs[0]);
      var rest := Fields(xs[1..], kind, Toggle(k, quoted));
      if k.Blank? && !quoted then [[]] + rest else [[xs[0]] + rest[0]] + rest[1..]
  }

  function Bare<T>(xs: seq<T>, kind: T -> Kind): seq<T> {
    if xs == [] then []
    else (if kind(xs[0]).Quote? then [] else [xs[0]]) + Bare(xs[1..], kind)
  }

  /** Empty fields are gaps between blanks; a field of quotes only is an empty argument. */
  function Args<T>(fs: seq<seq<T>>, kind: T -> Kind): seq<seq<T>> {
    if fs == [] then []
    else (if fs[0] == [] then [] else [Bare(fs[0], kind)]) + Args(fs[1..], kind)
  }

  function Tokens<T>(xs: seq<T>, kind: T -> Kind): seq<seq<T>> {
    Args(Fields(xs, kind, false), kind)
  }

  // ----- The tokenizer -----

  /** The tokens still to come when `cur` has been read of an unfinished field. */
  function Resume(cur: string, hasCur: bool, fs: seq<string>): seq<string>
    requires |fs| >= 1
  {
    (if hasCur || fs[0] != [] then [cur + Bare(fs[0], CharKind)] else []) + Args(fs[1..], CharKind)
  }

  lemma ResumeStart(fs: seq<string>)
    requires |fs| >= 1
    ensures Resume("", false, fs) == Args(fs, CharKind)
  {
    assert "" + Bare(fs[0], CharKind) == Bare(fs[0], CharKind);
  }

  lemma ResumeStep(cur: string, hasCur: bool, c: char, u: string, inQuotes: bool)
    requires (!hasCur ==> cur == "") && (inQuotes ==> hasCur)
    ensures var before := Resume(cur, hasCur, Fields([c] + u, CharKind, inQuotes));
            match CharKind(c)
            case Quote => before == Resume(cur, true, Fields(u, CharKind, !inQuotes))
            case Blank => before == if inQuotes then Resume(cur + [c], true, Fields(u, CharKind, true))
                                    else (if hasCur then [cur] else []) + Resume("", false, Fields(u, CharKind, false))
            case Plain => before == Resume(cur + [c], true, Fields(u, CharKind, inQuotes))
  {
    assert ([c] + u)[1..] == u;
    var rest := Fields(u, CharKind, Toggle(CharKind(c), inQuotes));
    if CharKind(c).Blank? && !inQuotes {
      assert ([[]] + rest)[1..] == rest && cur + Bare([], CharKind) == cur;
      ResumeStart(rest);
    } else {
      var f := [c] + rest[0];
      assert f[1..] == rest[0] && ([f] + rest[1..])[1..] == rest[1..];
      assert cur + ([c] + Bare(rest[0], CharKind)) == cur + [c] + Bare(rest[0], CharKind);
      assert cur + ([] + Bare(rest[0], CharKind)) == cur + Bare(rest[0], CharKind);
    }
  }

  /** All tokens, from a point where `tokens` are complete and the rest is still unread. */
  ghost function Outcome(tokens: seq<string>, cur: string, hasCur: bool, u: string, inQuotes: bool): seq<string> {
    tokens + Resume(cur, hasCur, Fields(u, CharKind, inQuotes))
  }

  lemma Consume(tokens: seq<string>, cur: string, hasCur: bool, s: string, i: nat, inQuotes: bool)
    requires i < |s| && (!hasCur ==> cur == "") && (inQuotes ==> hasCur)
    ensures var c, u := s[i], s[i + 1..];
            Outcome(tokens, cur, hasCur, s[i..], inQuotes) ==
            if c == '"' then Outcome(tokens, cur, true, u, !inQuotes)
            else if c != ' ' && c != '\t' then Outcome(tokens, cur + [c], true, u, inQuotes)
            else if inQuotes then Outcome(tokens, cur + [c], true, u, true)
            else if hasCur then Outcome(tokens + [cur], "", false, u, false)
            else Outcome(tokens, "", false, u, false)
  {
    assert s[i..] == [s[i]] + s[i + 1..];
    ResumeStep(cur, hasCur, s[i], s[i + 1..], inQuotes);
    var todo := Resume("", false, Fields(s[i + 1..], CharKind, false));
    assert tokens + ([cur] + todo) == tokens + [cur] + todo && [] + todo == todo;
  }

  lemma OutcomeEnds(tokens: seq<string>, cur: string, hasCur: bool, inQuotes: bool)
    ensures Outcome(tokens, cur, hasCur, "", inQuotes) == if hasCur then tokens + [cur] else tokens
  {
    assert cur + Bare("", CharKind) == cur;
    assert Fields("", CharKind, inQuotes)[1..] == [];
  }

  method TokenizeCommand(s: string) returns (tokens: seq<string>)
    ensures tokens == Tokens(s, CharKind)
  {
    tokens := [];
    var cur := "";
    var inQuotes, hasCur := false, false;
    ResumeStart(Fields(s, CharKind, false));
    assert s[0..] == s && Outcome([], "", false, s, false) == Tokens(s, CharKind);
    for i := 0 to |s|
      invariant (!hasCur ==> cur == "") && (inQuotes ==> hasCur)
      invariant Outcome(tokens, cur, hasCur, s[i..], inQuotes) == Tokens(s, CharKind)
    {
      Consume(tokens, cur, hasCur, s, i, inQuotes);
      if s[i] == '"' {
        inQuotes := !inQuotes;
        hasCur := true;
      } else if s[i] == ' ' || s[i] == '\t' {
        if inQuotes {
          cur := cur + [s[i]];
        } else if hasCur {
          tokens := tokens + [cur];
          cur := "";
          hasCur := false;
        }
      } else {
        cur := cur + [s[i]];
        hasCur := true;
      }
    }
    assert s[|s|..] == "";
    OutcomeEnds(tokens, cur, hasCur, inQuotes);
    if hasCur {
      tokens := tokens + [cur];
    }
  }

  // ----- Quoting is undone -----

  /** Text without quotes, read inside quotes or free of blanks, stays in one field. */
  lemma {:induction false} FieldsGlued<T>(w: seq<T>, u: seq<T>, kind: T -> Kind, quoted: bool)
    requires forall x | x in w :: !kind(x).Quote? && (quoted || !kind(x).Blank?)
    ensures Fields(w + u, kind, quoted) == [w + Fields(u, kind, quoted)[0]] + Fields(u, kind, quoted)[1..]
  {
    var fs := Fields(u, kind, quoted);
    if w == [] {
      assert w + u == u && w + fs[0] == fs[0];
    } else {
      assert (w + u)[1..] == w[1..] + u;
      FieldsGlued(w[1..], u, kind, quoted);
      assert [w[0]] + (w[1..] + fs[0]) == w + fs[0];
    }
  }

  lemma {:induction false} BareGlued<T>(xs: seq<T>, ys: seq<T>, kind: T -> Kind)
    ensures Bare(xs + ys, kind) == Bare(xs, kind) + Bare(ys, kind)
  {
    if xs == [] {
      assert xs + ys == ys;
    } else {
      assert (xs + ys)[1..] == xs[1..] + ys;
      BareGlued(xs[1..], ys, kind);
    }
  }

  lemma {:induction false} BareNoQuote<T>(xs: seq<T>, kind: T -> Kind)
    ensures forall x | x in Bare(xs, kind) :: !kind(x).Quote?
    ensures (forall x | x in xs :: !kind(x).Quote?) ==> Bare(xs, kind) == xs
  {
    if xs != [] {
      BareNoQuote(xs[1..], kind);
      assert xs == [xs[0]] + xs[1..];
    }
  }

  lemma {:induction false} ArgsNoQuote<T>(fs: seq<seq<T>>, kind: T -> Kind)
    ensures forall a, x | a in Args(fs, kind) && x in a :: !kind(x).Quote?
  {
    if fs != [] {
      BareNoQuote(fs[0], kind);
      ArgsNoQuote(fs[1..], kind);
    }
  }

  function Quoted(arg: string): string {
    "\"" + arg + "\""
  }

  /** Each argument in quotes, joined by single spaces. */
  function QuotedLine(args: seq<string>): string {
    if |args| == 0 then "" else if |args| == 1 then Quoted(args[0]) else Quoted(args[0]) + " " + QuotedLine(args[1..])
  }

  lemma FieldsQuoted(arg: string, u: string)
    requires '"' !in arg
    ensures var fs := Fields(u, CharKind, false);
            Fields(Quoted(arg) + u, CharKind, false) == [Quoted(arg) + fs[0]] + fs[1..]
  {
    var fs := Fields(u, CharKind, false);
    var close := "\"" + u;
    assert close[1..] == u;
    assert Fields(close, CharKind, true) == [['"'] + fs[0]] + fs[1..];
    FieldsGlued(arg, close, CharKind, true);
    var s := Quoted(arg) + u;
    assert s[0] == '"' && s[1..] == arg + close;
    assert ['"'] + (arg + (['"'] + fs[0])) == Quoted(arg) + fs[0];
  }

  lemma BareQuoted(arg: string)
    requires '"' !in arg
    ensures Bare(Quoted(arg), CharKind) == arg
  {
    BareGlued("\"" + arg, "\"", CharKind);
    BareGlued("\"", arg, CharKind);
    BareNoQuote(arg, CharKind);
    assert "\""[1..] == "" && Bare("", CharKind) == "";
    assert Bare("\"", CharKind) == "";
  }

  lemma ArgsStep<T>(f: seq<T>, fs: seq<seq<T>>, kind: T -> Kind)
    ensures Args([f] + fs, kind) == (if f == [] then [] else [Bare(f, kind)]) + Args(fs, kind)
  {
  }

  lemma FirstArgument(arg: string, u: string)
    requires '"' !in arg && (u == "" || u[0] == ' ')
    ensures Tokens(Quoted(arg) + u, CharKind) == [arg] + Tokens(if u == "" then u else u[1..], CharKind)
  {
    var fs := Fields(u, CharKind, false);
    FieldsQuoted(arg, u);
    BareQuoted(arg);
    assert fs[0] == [] && Quoted(arg) + [] == Quoted(arg);
    ArgsStep(Quoted(arg), fs[1..], CharKind);
    if u != "" {
      assert fs[1..] == Fields(u[1..], CharKind, false);
    }
  }

  lemma {:induction false} QuotedLineTokens(args: seq<string>)
    requires forall a | a in args :: '"' !in a
    ensures Tokens(QuotedLine(args), CharKind) == args
  {
    if args != [] {
      var u := if |args| == 1 then "" else " " + QuotedLine(args[1..]);
      assert QuotedLine(args) == Quoted(args[0]) + u;
      FirstArgument(args[0], u);
      QuotedLineTokens(args[1..]);
      var tail := if u == "" then u else u[1..];
      assert QuotedLine(args[1..]) == tail;
      assert Tokens(tail, CharKind) == args[1..];
      assert args == [args[0]] + args[1..];
    } else {
      assert Fields("", CharKind, false) == [[]] + [];
      ArgsStep([], [], CharKind);
    }
  }

  /** Quoting every argument is undone by the tokenizer exactly when no argument contains
      a double quote; empty arguments and embedded blanks survive. */
  lemma QuotingRoundTrip(args: seq<string>)
    ensures Tokens(QuotedLine(args), CharKind) == args <==> forall a | a in args :: '"' !in a
  {
    if forall a | a in args :: '"' !in a {
      QuotedLineTokens(args);
    }
    ArgsNoQuote(Fields(QuotedLine(args), CharKind, false), CharKind);
  }

  // ----- The tokens of any text, piece by piece -----

  lemma FirstField(u: string)
    ensures var f := Fields(u, CharKind, false)[0];
            f == [] <==> u == "" || u[0] == ' ' || u[0] == '\t'
  {
  }

  lemma FieldsOpen(text: string)
    requires '"' !in text
    ensures Fields("\"" + text, CharKind, false) == [ "\"" + text ]
  {
    FieldsGlued(text, "", CharKind, true);
    assert text + "" == text && ("\"" + text)[1..] == text && text + [] == text;
    assert Fields(text, CharKind, true) == [text] + [];
  }

  lemma BareOpen(text: string)
    requires '"' !in text
    ensures Bare("\"" + text, CharKind) == text
  {
    assert ("\"" + text)[1..] == text && [] + text == text;
    BareNoQuote(text, CharKind);
  }

  /** What one piece of a token is: a word without blanks and quotes, or text in quotes, of
      which the last pair may be left open at the end of the line. */
  predicate IsPiece(piece: string, text: string, u: string) {
    || (piece == text != "" && forall c | c in text :: c != ' ' && c != '\t' && c != '"')
    || ('"' !in text && (piece == "\"" + text + "\"" || (piece == "\"" + text && u == "")))
  }

  lemma PieceGlued(piece: string, text: string, u: string)
    requires IsPiece(piece, text, u)
    ensures var fs := Fields(u, CharKind, false);
            Fields(piece + u, CharKind, false) == [piece + fs[0]] + fs[1..]
    ensures Bare(piece, CharKind) == text && piece != ""
  {
    if piece == text {
      FieldsGlued(piece, u, CharKind, false);
      BareNoQuote(text, CharKind);
    } else if piece == Quoted(text) {
      FieldsQuoted(text, u);
      BareQuoted(text);
    } else {
      FieldsOpen(text);
      BareOpen(text);
      assert piece + u == piece && Fields(u, CharKind, false) == [[]] + [] && piece + [] == piece;
      assert [piece] + [] == [piece];
    }
  }

  /** The piece at the front of a line is a token of its own before a blank or the end, and
      otherwise the beginning of the first token of what follows. */
  lemma PieceThenRest(piece: string, text: string, u: string)
    requires IsPiece(piece, text, u)
    ensures var rest := Tokens(u, CharKind);
            if u == "" || u[0] == ' ' || u[0] == '\t' then Tokens(piece + u, CharKind) == [text] + rest
            else rest != [] && Tokens(piece + u, CharKind) == [text + rest[0]] + rest[1..]
  {
    hide Fields, Args, Bare, IsPiece;
    var fs := Fields(u, CharKind, false);
    PieceGlued(piece, text, u);
    FirstField(u);
    BareGlued(piece, fs[0], CharKind);
    ArgsStep(piece + fs[0], fs[1..], CharKind);
    ArgsStep(fs[0], fs[1..], CharKind);
    assert [fs[0]] + fs[1..] == fs;
    if fs[0] == [] { assert piece + fs[0] == piece; }
  }

  /** Blanks and tabs before a token are skipped; with the lemma above this says what the
      tokens of every text are. */
  lemma BlankThenRest(c: char, u: string)
    requires c == ' ' || c == '\t'
    ensures Tokens([c] + u, CharKind) == Tokens(u, CharKind) && Tokens("", CharKind) == []
  {
    var fs := Fields(u, CharKind, false);
    assert ([c] + u)[1..] == u;
    ArgsStep([], fs, CharKind);
    assert [] + Args(fs, CharKind) == Args(fs, CharKind);
    assert Fields("", CharKind, false) == [[]] + [];
    ArgsStep([], [], CharKind);
  }

  // ----- Nothing is lost, added or moved -----

  /** The text without its quotes and without the blanks outside quotes. */
  function Visible<T>(xs: seq<T>, kind: T -> Kind, quoted: bool): seq<T> {
    if xs == [] then []
    else
      var k := kind(xs[0]);
      (if k.Quote? || (k.Blank? && !quoted) then [] else [xs[0]]) + Visible(xs[1..], kind, Toggle(k, quoted))
  }

  function Flat<T>(ss: seq<seq<T>>): seq<T> {
    if ss == [] then [] else ss[0] + Flat(ss[1..])
  }

  lemma FlatArgs<T>(fs: seq<seq<T>>, kind: T -> Kind)
    requires |fs| >= 1
    ensures Flat(Args(fs, kind)) == Bare(fs[0], kind) + Flat(Args(fs[1..], kind))
  {
    var tail := Args(fs[1..], kind);
    if fs[0] == [] {
      assert Args(fs, kind) == tail;
    } else {
      var all := [Bare(fs[0], kind)] + tail;
      assert all[1..] == tail;
    }
  }

  lemma FlatFields<T>(xs: seq<T>, kind: T -> Kind, quoted: bool)
    requires xs != []
    ensures var k := kind(xs[0]);
            Flat(Args(Fields(xs, kind, quoted), kind)) ==
            (if k.Quote? || (k.Blank? && !quoted) then [] else [xs[0]])
            + Flat(Args(Fields(xs[1..], kind, Toggle(k, quoted)), kind))
  {
    var k := kind(xs[0]);
    var rest := Fields(xs[1..], kind, Toggle(k, quoted));
    if k.Blank? && !quoted {
      ArgsStep([], rest, kind);
      assert [] + Args(rest, kind) == Args(rest, kind);
      assert [] + Flat(Args(rest, kind)) == Flat(Args(rest, kind));
    } else {
      FlatExtended(xs[0], rest, kind);
    }
  }

  lemma FlatExtended<T>(x: T, fs: seq<seq<T>>, kind: T -> Kind)
    requires |fs| >= 1
    ensures Flat(Args([[x] + fs[0]] + fs[1..], kind)) ==
            (if kind(x).Quote? then [] else [x]) + Flat(Args(fs, kind))
  {
    hide Args, Flat, Bare;
    var f, mark := [x] + fs[0], if kind(x).Quote? then [] else [x];
    var extended, bare, tail := [f] + fs[1..], Bare(fs[0], kind), Flat(Args(fs[1..], kind));
    assert extended[0] == f && extended[1..] == fs[1..];
    FlatArgs(extended, kind);
    FlatArgs(fs, kind);
    BareStep(x, fs[0], kind);
    Associative(mark, bare, tail);
  }

  lemma Associative<T>(a: seq<T>, b: seq<T>, c: seq<T>)
    ensures a + b + c == a + (b + c)
  {
  }

  lemma BareStep<T>(x: T, f: seq<T>, kind: T -> Kind)
    ensures Bare([x] + f, kind) == (if kind(x).Quote? then [] else [x]) + Bare(f, kind)
  {
  }

  /** The tokens, one after the other, are the visible text, whether or not the quotes
      are balanced. */
  lemma {:induction false} TokensConcat<T>(xs: seq<T>, kind: T -> Kind, quoted: bool)
    ensures Flat(Args(Fields(xs, kind, quoted), kind)) == Visible(xs, kind, quoted)
  {
    if xs != [] {
      FlatFields(xs, kind, quoted);
      TokensConcat(xs[1..], kind, Toggle(kind(xs[0]), quoted));
    }
  }

  // ----- Expansion keeps the argument structure -----

  datatype Sym = Ch(c: char) | Ph(body: string)

  function SymKind(x: Sym): Kind {
    if x.Ch? then CharKind(x.c) else Plain
  }

  function Symbols(t: Template): seq<Sym> {
    match t
    case Tail(text) => Chars(text)
    case Seg(lit, body, rest) => Chars(lit) + [Ph(body)] + Symbols(rest)
  }

  function Chars(s: string): seq<Sym> {
    if s == "" then [] else [Ch(s[0])] + Chars(s[1..])
  }

  function SymText(x: Sym, values: map<string, string>): string {
    if x.Ch? then [x.c] else HoleText(x.body, values)
  }

  function Text(xs: seq<Sym>, values: map<string, string>): string {
    if xs == [] then "" else SymText(xs[0], values) + Text(xs[1..], values)
  }

  function Filled(args: seq<seq<Sym>>, values: map<string, string>): (r: seq<string>)
    ensures |r| == |args| && forall i | 0 <= i < |args| :: r[i] == Text(args[i], values)
  {
    if args == [] then [] else [Text(args[0], values)] + Filled(args[1..], values)
  }

  lemma {:induction false} TextGlued(xs: seq<Sym>, ys: seq<Sym>, values: map<string, string>)
    ensures Text(xs + ys, values) == Text(xs, values) + Text(ys, values)
  {
    if xs == [] {
      assert xs + ys == ys;
    } else {
      assert (xs + ys)[1..] == xs[1..] + ys;
      TextGlued(xs[1..], ys, values);
    }
  }

  lemma {:induction false} TextChars(s: string, values: map<string, string>)
    ensures Text(Chars(s), values) == s
  {
    if s != "" {
      var xs := [Ch(s[0])] + Chars(s[1..]);
      assert xs[1..] == Chars(s[1..]);
      TextChars(s[1..], values);
      assert s == [s[0]] + s[1..];
    }
  }

  lemma {:induction false} TextSymbols(t: Template, values: map<string, string>)
    ensures Text(Symbols(t), values) == Eval(t, values)
  {
    match t
    case Tail(text) => TextChars(text, values);
    case Seg(lit, body, rest) =>
      TextChars(lit, values);
      TextSymbols(rest, values);
      TextGlued(Chars(lit) + [Ph(body)], Symbols(rest), values);
      TextGlued(Chars(lit), [Ph(body)], values);
      assert [Ph(body)][1..] == [] && HoleText(body, values) + "" == HoleText(body, values);
      assert Text([Ph(body)], values) == HoleText(body, values);
  }

  predicate NoQuotes(s: string) {
    forall c | c in s :: !CharKind(c).Quote?
  }

  predicate NoBlanks(s: string) {
    forall c | c in s :: !CharKind(c).Blank?
  }

  /** Every placeholder's text is free of quotes, and of blanks where it is not quoted. */
  predicate WordSafe(xs: seq<Sym>, values: map<string, string>, quoted: bool) {
    xs != [] ==>
      && (xs[0].Ph? ==> NoQuotes(SymText(xs[0], values)) && (quoted || NoBlanks(SymText(xs[0], values))))
      && WordSafe(xs[1..], values, Toggle(SymKind(xs[0]), quoted))
  }

  /** No argument of the template disappears because all its placeholders are empty. */
  predicate NoneVanish(fs: seq<seq<Sym>>, values: map<string, string>) {
    fs != [] ==> (fs[0] != [] ==> Text(fs[0], values) != "") && NoneVanish(fs[1..], values)
  }

  lemma {:induction false} FieldsFilled(xs: seq<Sym>, values: map<string, string>, quoted: bool)
    requires WordSafe(xs, values, quoted)
    ensures Fields(Text(xs, values), CharKind, quoted) == Filled(Fields(xs, SymKind, quoted), values)
  {
    if xs != [] {
      var x, k := xs[0], SymKind(xs[0]);
      var u := Text(xs[1..], values);
      FieldsFilled(xs[1..], values, Toggle(k, quoted));
      var symRest := Fields(xs[1..], SymKind, Toggle(k, quoted));
      var rest := Fields(u, CharKind, Toggle(k, quoted));
      var f := [x] + symRest[0];
      assert f[1..] == symRest[0];
      if x.Ph? {
        FieldsGlued(SymText(x, values), u, CharKind, quoted);
      } else {
        assert ([x.c] + u)[1..] == u;
      }
      var fs := Fields(xs, SymKind, quoted);
      if k.Blank? && !quoted {
        assert fs[1..] == symRest && Text([], values) == "";
      } else {
        assert fs[0] == f && fs[1..] == symRest[1..];
        assert Filled(symRest, values)[1..] == Filled(symRest[1..], values);
        assert Text(f, values) == SymText(x, values) + rest[0];
      }
    }
  }

  predicate QuoteFreeHoles(xs: seq<Sym>, values: map<string, string>) {
    forall x | x in xs && x.Ph? :: NoQuotes(SymText(x, values))
  }

  lemma {:induction false} BareText(xs: seq<Sym>, values: map<string, string>)
    requires QuoteFreeHoles(xs, values)
    ensures Bare(Text(xs, values), CharKind) == Text(Bare(xs, SymKind), values)
  {
    if xs != [] {
      var x := xs[0];
      BareText(xs[1..], values);
      BareGlued(SymText(x, values), Text(xs[1..], values), CharKind);
      var bare := Bare(xs[1..], SymKind);
      assert ([x] + bare)[1..] == bare;
      if x.Ph? {
        BareNoQuote(SymText(x, values), CharKind);
      } else {
        assert [x.c][1..] == [];
        assert Bare([x.c], CharKind) == if SymKind(x).Quote? then [] else [x.c];
        assert SymText(x, values) == [x.c]
            && [] + Bare(Text(xs[1..], values), CharKind) == Bare(Text(xs[1..], values), CharKind);
        assert [] + bare == bare;
      }
    }
  }

  /** Filling fields commutes with forming arguments, up to the fields that become empty. */
  lemma {:induction false} ArgsFilled(fs: seq<seq<Sym>>, values: map<string, string>)
    requires forall f | f in fs :: QuoteFreeHoles(f, values)
    ensures |Args(Filled(fs, values), CharKind)| <= |Args(fs, SymKind)|
    ensures NoneVanish(fs, values) <==> Args(Filled(fs, values), CharKind) == Filled(Args(fs, SymKind), values)
    ensures NoneVanish(fs, values) <==> |Args(Filled(fs, values), CharKind)| == |Args(fs, SymKind)|
  {
    if fs != [] {
      ArgsFilled(fs[1..], values);
      BareText(fs[0], values);
      var filled := Filled(fs, values);
      assert filled[1..] == Filled(fs[1..], values);
      var args := Args(fs[1..], SymKind);
      if fs[0] != [] {
        var all := [Bare(fs[0], SymKind)] + args;
        assert all[1..] == args;
        assert Args(fs, SymKind) == all;
        assert Filled(all, values) == [Text(Bare(fs[0], SymKind), values)] + Filled(args, values);
      }
    }
  }

  lemma {:induction false} WordSafeHoles(xs: seq<Sym>, values: map<string, string>, quoted: bool)
    requires WordSafe(xs, values, quoted)
    ensures QuoteFreeHoles(xs, values)
  {
    if xs != [] {
      WordSafeHoles(xs[1..], values, Toggle(SymKind(xs[0]), quoted));
      assert xs == [xs[0]] + xs[1..];
    }
  }

  lemma {:induction false} FieldsWithin<T>(xs: seq<T>, kind: T -> Kind, quoted: bool)
    ensures forall f, x | f in Fields(xs, kind, quoted) && x in f :: x in xs
  {
    if xs != [] {
      FieldsWithin(xs[1..], kind, Toggle(kind(xs[0]), quoted));
    }
  }

  lemma {:induction false} FlatFilled(args: seq<seq<Sym>>, values: map<string, string>)
    ensures Flat(Filled(args, values)) == Text(Flat(args), values)
  {
    if args != [] {
      FlatFilled(args[1..], values);
      var filled := Filled(args, values);
      assert filled[1..] == Filled(args[1..], values);
      TextGlued(args[0], Flat(args[1..]), values);
    }
  }

  lemma {:induction false} VisibleGlued(w: string, u: string, quoted: bool)
    requires NoQuotes(w)
    ensures Visible(w + u, CharKind, quoted) == Visible(w, CharKind, quoted) + Visible(u, CharKind, quoted)
    ensures |Visible(w, CharKind, quoted)| <= |w|
    ensures |Visible(w, CharKind, quoted)| == |w| <==> quoted || NoBlanks(w)
  {
    if w == "" {
      assert w + u == u;
    } else {
      assert (w + u)[1..] == w[1..] + u && w == [w[0]] + w[1..];
      assert w[0] in w;
      VisibleGlued(w[1..], u, quoted);
    }
  }

  /** A blank brought in by an unquoted placeholder is missing from the visible text. */
  lemma {:induction false} VisibleShrinks(xs: seq<Sym>, values: map<string, string>, quoted: bool)
    requires QuoteFreeHoles(xs, values)
    ensures |Visible(Text(xs, values), CharKind, quoted)| <= |Text(Visible(xs, SymKind, quoted), values)|
    ensures |Visible(Text(xs, values), CharKind, quoted)| == |Text(Visible(xs, SymKind, quoted), values)|
            <==> WordSafe(xs, values, quoted)
  {
    if xs != [] {
      var x, k := xs[0], SymKind(xs[0]);
      assert x in xs;
      VisibleShrinks(xs[1..], values, Toggle(k, quoted));
      var u := Text(xs[1..], values);
      var vis := Visible(xs[1..], SymKind, Toggle(k, quoted));
      assert ([x] + vis)[1..] == vis && [] + vis == vis;
      if x.Ph? {
        VisibleGlued(SymText(x, values), u, quoted);
      } else {
        assert ([x.c] + u)[1..] == u;
      }
    }
  }

  lemma {:induction false} VisibleText(xs: seq<Sym>, values: map<string, string>, quoted: bool)
    ensures forall x, c | x in xs && x.Ph? && c in SymText(x, values) :: c in Text(Visible(xs, SymKind, quoted), values)
  {
    if xs != [] {
      var k := SymKind(xs[0]);
      VisibleText(xs[1..], values, Toggle(k, quoted));
      var vis := Visible(xs[1..], SymKind, Toggle(k, quoted));
      assert ([xs[0]] + vis)[1..] == vis && [] + vis == vis;
    }
  }

  lemma {:induction false} VisibleNoQuote(s: string, quoted: bool)
    ensures NoQuotes(Visible(s, CharKind, quoted))
  {
    if s != "" {
      VisibleNoQuote(s[1..], Toggle(CharKind(s[0]), quoted));
    }
  }

  lemma UnsafeChangesArguments(xs: seq<Sym>, values: map<string, string>)
    requires !WordSafe(xs, values, false)
    ensures Tokens(Text(xs, values), CharKind) != Filled(Tokens(xs, SymKind), values)
  {
    TokensConcat(Text(xs, values), CharKind, false);
    TokensConcat(xs, SymKind, false);
    FlatFilled(Tokens(xs, SymKind), values);
    if QuoteFreeHoles(xs, values) {
      VisibleShrinks(xs, values, false);
    } else {
      VisibleText(xs, values, false);
      VisibleNoQuote(Text(xs, values), false);
    }
  }

  /** The argument vector of the expanded template is the template's own argument vector
      with the values filled in, argument by argument, exactly when every value is a plain
      word where it stands and no argument vanishes. */
  lemma ArgumentsPreserved(t: Template, values: map<string, string>)
    ensures Tokens(Eval(t, values), CharKind) == Filled(Tokens(Symbols(t), SymKind), values) <==>
            WordSafe(Symbols(t), values, false) && NoneVanish(Fields(Symbols(t), SymKind, false), values)
  {
    var xs := Symbols(t);
    TextSymbols(t, values);
    if WordSafe(xs, values, false) {
      FieldsFilled(xs, values, false);
      WordSafeHoles(xs, values, false);
      FieldsWithin(xs, SymKind, false);
      ArgsFilled(Fields(xs, SymKind, false), values);
    } else {
      UnsafeChangesArguments(xs, values);
    }
  }

  /** The command of a container: expand the startup template, then split it. */
  method StartupCommand(startup: string, values: map<string, string>) returns (cmd: seq<string>)
    ensures var xs := Symbols(Parse(startup));
            cmd == Filled(Tokens(xs, SymKind), values) <==>
            WordSafe(xs, values, false) && NoneVanish(Fields(xs, SymKind, false), values)
    ensures cmd == Tokens(Eval(Parse(startup), values), CharKind)
  {
    var line := Substitute(startup, values);
    cmd := TokenizeCommand(line);
    ArgumentsPreserved(Parse(startup), values);
  }
}
