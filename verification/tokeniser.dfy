/**
 * The variable tokeniser: splits a path into raw text and `$name` / `${name}`
 * references, and renders the pieces back against a name -> value context.
 */
module Tokeniser {
  import opened Common
  import opened Text

  /** `Token` is a variable reference, `RawString` literal text. */
  datatype Piece = Token(name: string) | RawString(value: string)

  datatype Error =
    | UnclosedBrace          // `${` without its `}`
    | UnknownToken(name: string)
    | NotAToken              // an empty raw string has no `name` to look up

  /** The scanner's flags: inside a variable, inside braces, after a backslash. */
  datatype State = State(acc: seq<Piece>, curr: string, inVar: bool, braced: bool, escaped: bool)

  const Start := State([], "", false, false, false)

  /** Characters that extend a bare `$name` (ASCII letters, digits and `_`). */
  predicate IsIdentChar(c: char) {
    'a' <= c <= 'z' || 'A' <= c <= 'Z' || '0' <= c <= '9' || c == '_'
  }

  /** Appends the pending raw text, if there is any. */
  function Flush(acc: seq<Piece>, curr: string): seq<Piece> {
    if curr != "" then acc + [RawString(curr)] else acc
  }

  /** One character of the scanner, branch for branch. */
  function Step(st: State, c: char): State {
    if !st.inVar then
      if c == '\\' && !st.escaped then st.(escaped := true)
      else if c == '$' && !st.escaped then st.(acc := Flush(st.acc, st.curr), curr := "", inVar := true)
      else st.(curr := st.curr + (if st.escaped && c != '$' then "\\" else "") + [c], escaped := false)
    else if c == '{' && st.curr == "" then st.(braced := true)
    else if st.braced then
      if c == '}' then st.(acc := st.acc + [Token(st.curr)], inVar := false, braced := false, curr := "")
      else st.(curr := st.curr + [c])
    else if !IsIdentChar(c) then
      var closed := st.(acc := st.acc + [Token(st.curr)], inVar := false, braced := false, curr := "");
      if c == '\\' then closed.(escaped := true)
      else if c == '$' then closed.(inVar := true)
      else closed.(curr := [c])
    else st.(curr := st.curr + [c])
  }

  /** The scanner run over `s` from `st`, left to right. */
  function Run(st: State, s: string): State
    decreases |s|
  {
    if s == [] then st else Step(Run(st, s[..|s| - 1]), Last(s))
  }

  /** End of input: an open brace is an error, pending text becomes the last piece. */
  function Finish(st: State): Result<seq<Piece>, Error> {
    if st.inVar && st.braced then Err(UnclosedBrace)
    else if st.curr != "" then Ok(st.acc + [if st.inVar then Token(st.curr) else RawString(st.curr)])
    else Ok(st.acc)
  }

  /** Raw strings are never empty and never next to each other. */
  predicate WellFormed(ts: seq<Piece>) {
    && (forall i :: 0 <= i < |ts| && ts[i].RawString? ==> ts[i].value != "")
    && (forall i :: 0 <= i < |ts| - 1 && ts[i].RawString? ==> !ts[i + 1].RawString?)
  }

  /** What the scanner keeps true between characters. */
  predicate Inv(st: State) {
    && WellFormed(st.acc)
    && (|st.acc| > 0 && Last(st.acc).RawString? ==> st.inVar)
    && (st.braced ==> st.inVar)
    && (st.inVar ==> !st.escaped)
  }

  lemma StepInv(st: State, c: char)
    requires Inv(st)
    ensures Inv(Step(st, c))
  {
  }

  lemma {:induction false} RunInv(st: State, s: string)
    requires Inv(st)
    ensures Inv(Run(st, s))
    decreases |s|
  {
    if s != [] {
      RunInv(st, s[..|s| - 1]);
      StepInv(Run(st, s[..|s| - 1]), Last(s));
    }
  }

  /** `tokenise`: every result is well formed. */
  function Tokenise(s: string): (r: Result<seq<Piece>, Error>)
    ensures r.Ok? ==> WellFormed(r.value)
  {
    RunInv(Start, s);
    Finish(Run(Start, s))
  }

  /** A piece that `render` can look up. */
  predicate Renderable(p: Piece, ctx: map<string, string>) {
    match p
    case RawString(v) => v != ""
    case Token(n) => n in ctx
  }

  function Failure(p: Piece): Error {
    match p
    case RawString(_) => NotAToken
    case Token(n) => UnknownToken(n)
  }

  /** `render`: succeeds iff every piece is renderable, else fails on the first that is not. */
  function Render(ts: seq<Piece>, ctx: map<string, string>): (r: Result<string, Error>)
    ensures r.Ok? <==> forall i :: 0 <= i < |ts| ==> Renderable(ts[i], ctx)
    ensures r.Err? ==> exists i :: 0 <= i < |ts| && !Renderable(ts[i], ctx) && r.error == Failure(ts[i])
                                   && forall j :: 0 <= j < i ==> Renderable(ts[j], ctx)
  {
    if ts == [] then Ok("")
    else
      assert forall i :: 1 <= i < |ts| ==> ts[i] == ts[1..][i - 1];
      if !Renderable(ts[0], ctx) then Err(Failure(ts[0]))
      else
        var head := match ts[0] case RawString(v) => v case Token(n) => ctx[n];
        match Render(ts[1..], ctx)
        case Err(e) => Err(e)
        case Ok(tail) => Ok(head + tail)
  }

  /** Tokenise then render: the bookmark expansion applied to a typed path. */
  function Expand(s: string, ctx: map<string, string>): Result<string, Error> {
    match Tokenise(s)
    case Err(e) => Err(e)
    case Ok(ts) => Render(ts, ctx)
  }

  // ---------------------------------------------------------------------------
  // Running the scanner over concatenations

  lemma RunSnoc(st: State, x: string, c: char)
    ensures Run(st, x + [c]) == Step(Run(st, x), c)
  {
    assert (x + [c])[..|x|] == x;
  }

  lemma {:induction false} RunAppend(st: State, a: string, b: string)
    ensures Run(st, a + b) == Run(Run(st, a), b)
    decreases |b|
  {
    if b == [] {
      assert a + b == a;
    } else {
      var b' := b[..|b| - 1];
      assert a + b == (a + b') + [Last(b)];
      assert b == b' + [Last(b)];
      RunSnoc(st, a + b', Last(b));
      RunAppend(st, a, b');
      RunSnoc(Run(st, a), b', Last(b));
    }
  }

  // ---------------------------------------------------------------------------
  // Text without `$`

  /** Length of the run of backslashes that ends `s`. */
  function TrailingBackslashes(s: string): nat
    decreases |s|
  {
    if s == [] || Last(s) != '\\' then 0 else 1 + TrailingBackslashes(s[..|s| - 1])
  }

  /** An odd run of final backslashes leaves the last one unpaired. */
  predicate EndsInLoneBackslash(s: string) {
    TrailingBackslashes(s) % 2 == 1
  }

  /** The text a `$`-free input stands for: the input minus an unpaired final backslash. */
  function Literal(s: string): string {
    if EndsInLoneBackslash(s) then s[..|s| - 1] else s
  }

  lemma TrailingSnoc(p: string, c: char)
    ensures TrailingBackslashes(p + [c]) == if c == '\\' then 1 + TrailingBackslashes(p) else 0
  {
    assert (p + [c])[..|p|] == p;
  }

  lemma LoneBackslashIsLast(p: string)
    requires EndsInLoneBackslash(p)
    ensures |p| > 0 && Last(p) == '\\' && p[..|p| - 1] + ['\\'] == p
  {
  }

  lemma DollarFreeStep(p: string, c: char)
    requires c != '$'
    ensures Step(State([], Literal(p), false, false, EndsInLoneBackslash(p)), c)
         == State([], Literal(p + [c]), false, false, EndsInLoneBackslash(p + [c]))
  {
    TrailingSnoc(p, c);
    var s := p + [c];
    assert s[..|s| - 1] == p;
    if EndsInLoneBackslash(p) {
      LoneBackslashIsLast(p);
      assert Literal(p) + "\\" + [c] == s;
    } else {
      assert Literal(p) + [c] == s;
    }
  }

  lemma {:induction false} DollarFreeRun(s: string)
    requires '$' !in s
    ensures Run(Start, s) == State([], Literal(s), false, false, EndsInLoneBackslash(s))
    decreases |s|
  {
    if s == [] {
      assert Literal(s) == "";
    } else {
      var p := s[..|s| - 1];
      var c := Last(s);
      assert s == p + [c];
      assert '$' !in p by { assert forall i :: 0 <= i < |p| ==> p[i] == s[i]; }
      DollarFreeRun(p);
      RunSnoc(Start, p, c);
      assert c == s[|s| - 1];
      DollarFreeStep(p, c);
    }
  }

  /** A `$`-free input is at most one raw string: the input minus an unpaired final backslash. */
  lemma DollarFreeTokenise(s: string)
    requires '$' !in s
    ensures Tokenise(s) == Ok(if Literal(s) == "" then [] else [RawString(Literal(s))])
  {
    DollarFreeRun(s);
    var st := Run(Start, s);
    assert Tokenise(s) == Finish(st);
    assert [] + [RawString(Literal(s))] == [RawString(Literal(s))];
  }

  /** Expanding `$`-free text gives it back, whatever the context. */
  lemma DollarFreeExpand(s: string, ctx: map<string, string>)
    requires '$' !in s
    ensures Expand(s, ctx) == Ok(Literal(s))
    ensures !EndsInLoneBackslash(s) ==> Expand(s, ctx) == Ok(s)
  {
    DollarFreeTokenise(s);
    var ts := if Literal(s) == "" then [] else [RawString(Literal(s))];
    if Literal(s) != "" {
      assert Render(ts[1..], ctx) == Ok("");
      assert Literal(s) + "" == Literal(s);
    }
  }

  // ---------------------------------------------------------------------------
  // An inverse: writing pieces back as tokeniser input

  /** Raw text as tokeniser input: `$` is written `\$`. */
  function Escape(v: string): string
    decreases |v|
  {
    if v == [] then [] else Escape(v[..|v| - 1]) + (if Last(v) == '$' then "\\$" else [Last(v)])
  }

  function UnparsePiece(p: Piece): string {
    match p
    case RawString(v) => Escape(v)
    case Token(n) => "${" + n + "}"
  }

  /** Pieces written back as tokeniser input, every variable in braces. */
  function Unparse(ts: seq<Piece>): string
    decreases |ts|
  {
    if ts == [] then "" else Unparse(ts[..|ts| - 1]) + UnparsePiece(Last(ts))
  }

  /** Braced names may hold anything but `}` and may not open with `{`. */
  predicate BracedName(n: string) {
    '}' !in n && (n == "" || n[0] != '{')
  }

  /** The pieces `Unparse` can write: well formed, raw text without backslashes. */
  predicate Unparseable(ts: seq<Piece>) {
    && WellFormed(ts)
    && forall i :: 0 <= i < |ts| ==>
         match ts[i]
         case RawString(v) => '\\' !in v
         case Token(n) => BracedName(n)
  }

  lemma RunOne(st: State, c: char)
    ensures Run(st, [c]) == Step(st, c)
  {
    RunSnoc(st, [], c);
  }

  lemma RunTwo(st: State, c: char, d: char)
    ensures Run(st, [c, d]) == Step(Step(st, c), d)
  {
    assert [c, d] == [c] + [d];
    RunSnoc(st, [c], d);
    RunOne(st, c);
  }

  /** One character of raw text, escaped, lands in the pending text. */
  lemma EscapeOne(acc: seq<Piece>, curr: string, c: char)
    requires c != '\\'
    ensures Run(State(acc, curr, false, false, false), if c == '$' then "\\$" else [c])
         == State(acc, curr + [c], false, false, false)
  {
    var st := State(acc, curr, false, false, false);
    if c == '$' {
      assert "\\$" == ['\\', '$'];
      RunTwo(st, '\\', '$');
    } else {
      RunOne(st, c);
    }
  }

  lemma {:induction false} RunEscape(acc: seq<Piece>, curr: string, v: string)
    requires '\\' !in v
    ensures Run(State(acc, curr, false, false, false), Escape(v)) == State(acc, curr + v, false, false, false)
    decreases |v|
  {
    var st := State(acc, curr, false, false, false);
    if v == [] {
      assert curr + v == curr;
    } else {
      var v' := v[..|v| - 1];
      var c := Last(v);
      assert v == v' + [c];
      assert '\\' !in v' by { assert forall i :: 0 <= i < |v'| ==> v'[i] == v[i]; }
      assert c == v[|v| - 1];
      RunEscape(acc, curr, v');
      RunAppend(st, Escape(v'), if c == '$' then "\\$" else [c]);
      EscapeOne(acc, curr + v', c);
      assert curr + v' + [c] == curr + v;
    }
  }

  lemma {:induction false} RunBracedName(acc: seq<Piece>, n: string)
    requires BracedName(n)
    ensures Run(State(acc, "", true, true, false), n) == State(acc, n, true, true, false)
    decreases |n|
  {
    if n != [] {
      var n' := n[..|n| - 1];
      assert BracedName(n') by { assert forall i :: 0 <= i < |n'| ==> n'[i] == n[i]; }
      RunBracedName(acc, n');
      RunSnoc(State(acc, "", true, true, false), n', Last(n));
      assert n == n' + [Last(n)];
      assert Last(n) in n;
    }
  }

  /** `${name}` after pending text flushes the text and emits the name verbatim. */
  lemma RunBraced(acc: seq<Piece>, curr: string, n: string)
    requires BracedName(n)
    ensures Run(State(acc, curr, false, false, false), "${" + n + "}")
         == State(Flush(acc, curr) + [Token(n)], "", false, false, false)
  {
    var st := State(acc, curr, false, false, false);
    var open := State(Flush(acc, curr), "", true, true, false);
    assert "${" + n + "}" == (['$'] + ['{']) + n + ['}'];
    RunSnoc(st, [], '$');
    RunSnoc(st, ['$'], '{');
    assert ['$'] + ['{'] == ['$', '{'];
    RunAppend(st, ['$', '{'], n);
    RunBracedName(Flush(acc, curr), n);
    RunSnoc(st, ['$', '{'] + n, '}');
  }

  /** The pieces left once a trailing raw string is taken off. */
  function Settled(ts: seq<Piece>): seq<Piece> {
    if ts != [] && Last(ts).RawString? then ts[..|ts| - 1] else ts
  }

  /** The trailing raw string's text, or nothing. */
  function Pending(ts: seq<Piece>): string {
    if ts != [] && Last(ts).RawString? then Last(ts).value else ""
  }

  lemma UnparseablePrefix(ts: seq<Piece>)
    requires Unparseable(ts) && ts != []
    ensures Unparseable(ts[..|ts| - 1])
  {
    var ts' := ts[..|ts| - 1];
    assert forall i :: 0 <= i < |ts'| ==> ts'[i] == ts[i];
  }

  /** Flushing the pending text restores the whole written-back prefix. */
  lemma FlushSettled(acc: seq<Piece>, ts: seq<Piece>)
    requires WellFormed(ts)
    ensures Flush(acc + Settled(ts), Pending(ts)) == acc + ts
  {
    if ts != [] && Last(ts).RawString? {
      assert ts[|ts| - 1] == Last(ts);
      assert Last(ts).value != "";
      assert ts[..|ts| - 1] + [Last(ts)] == ts;
    }
  }

  /** A variable after the written-back prefix settles the pending text. */
  lemma RunUnparseToken(acc: seq<Piece>, ts': seq<Piece>, n: string)
    requires WellFormed(ts') && BracedName(n)
    requires Run(State(acc, "", false, false, false), Unparse(ts'))
          == State(acc + Settled(ts'), Pending(ts'), false, false, false)
    ensures Run(State(acc, "", false, false, false), Unparse(ts' + [Token(n)]))
         == State(acc + ts' + [Token(n)], "", false, false, false)
  {
    var st := State(acc, "", false, false, false);
    var ts := ts' + [Token(n)];
    var w := "${" + n + "}";
    assert ts[..|ts| - 1] == ts';
    assert Unparse(ts) == Unparse(ts') + w;
    RunAppend(st, Unparse(ts'), w);
    RunBraced(acc + Settled(ts'), Pending(ts'), n);
    FlushSettled(acc, ts');
  }

  /** Raw text after a written-back prefix that ends in a variable becomes the pending text. */
  lemma RunUnparseRaw(acc: seq<Piece>, ts': seq<Piece>, v: string)
    requires '\\' !in v && v != ""
    requires ts' == [] || !Last(ts').RawString?
    requires Run(State(acc, "", false, false, false), Unparse(ts'))
          == State(acc + Settled(ts'), Pending(ts'), false, false, false)
    ensures Run(State(acc, "", false, false, false), Unparse(ts' + [RawString(v)]))
         == State(acc + Settled(ts' + [RawString(v)]), Pending(ts' + [RawString(v)]), false, false, false)
  {
    var st := State(acc, "", false, false, false);
    var ts := ts' + [RawString(v)];
    assert ts[..|ts| - 1] == ts';
    assert Last(ts) == RawString(v);
    assert Unparse(ts) == Unparse(ts') + Escape(v);
    assert Settled(ts') == ts' && Pending(ts') == "";
    assert Settled(ts) == ts' && Pending(ts) == v;
    RunAppend(st, Unparse(ts'), Escape(v));
    var mid := State(acc + ts', "", false, false, false);
    assert Run(st, Unparse(ts')) == mid;
    RunEscape(acc + ts', "", v);
    assert "" + v == v;
    assert Run(mid, Escape(v)) == State(acc + ts', v, false, false, false);
  }

  lemma {:induction false} RunUnparse(acc: seq<Piece>, ts: seq<Piece>)
    requires Unparseable(ts)
    ensures Run(State(acc, "", false, false, false), Unparse(ts))
         == State(acc + Settled(ts), Pending(ts), false, false, false)
    decreases |ts|
  {
    if ts == [] {
      assert acc + [] == acc;
    } else {
      var ts' := ts[..|ts| - 1];
      UnparseablePrefix(ts);
      RunUnparse(acc, ts');
      var i := |ts| - 1;
      assert ts == ts' + [ts[i]];
      match ts[i]
      case Token(n) =>
        RunUnparseToken(acc, ts', n);
        assert Settled(ts) == ts && Pending(ts) == "";
        assert acc + ts' + [Token(n)] == acc + ts;
      case RawString(v) =>
        if ts' != [] {
          assert ts[i - 1] == Last(ts');
        }
        RunUnparseRaw(acc, ts', v);
    }
  }

  /** Round trip: tokenising the written-back pieces gives the pieces. */
  lemma UnparseTokenise(ts: seq<Piece>)
    requires Unparseable(ts)
    ensures Tokenise(Unparse(ts)) == Ok(ts)
  {
    RunUnparse([], ts);
    var st := Run(Start, Unparse(ts));
    assert st == State(Settled(ts), Pending(ts), false, false, false) by {
      assert [] + Settled(ts) == Settled(ts);
    }
    assert Tokenise(Unparse(ts)) == Finish(st);
    FlushSettled([], ts);
    assert [] + Settled(ts) == Settled(ts) && [] + ts == ts;
  }

  /** Expanding the written-back pieces renders exactly as the pieces do. */
  lemma UnparseExpand(ts: seq<Piece>, ctx: map<string, string>)
    requires Unparseable(ts)
    ensures Expand(Unparse(ts), ctx) == Render(ts, ctx)
  {
    UnparseTokenise(ts);
  }

  // ---------------------------------------------------------------------------
  // Bare variables, dangling `$`, unclosed braces

  predicate IsIdent(name: string) {
    forall i :: 0 <= i < |name| ==> IsIdentChar(name[i])
  }

  lemma StepIdent(st: State, c: char)
    requires st.inVar && !st.braced && IsIdentChar(c)
    ensures Step(st, c) == st.(curr := st.curr + [c])
  {
  }

  /** A non-identifier character closes a bare name. */
  lemma StepClose(st: State, c: char)
    requires st.inVar && !st.braced && !IsIdentChar(c) && !(c == '{' && st.curr == "")
    ensures Step(st, c) == (
      var closed := State(st.acc + [Token(st.curr)], "", false, false, st.escaped);
      if c == '\\' then closed.(escaped := true)
      else if c == '$' then closed.(inVar := true)
      else closed.(curr := [c]))
  {
  }

  lemma {:induction false} RunBareName(acc: seq<Piece>, curr: string, name: string)
    requires IsIdent(name)
    ensures Run(State(acc, curr, true, false, false), name) == State(acc, curr + name, true, false, false)
    decreases |name|
  {
    if name == [] {
      assert curr + name == curr;
    } else {
      var n' := name[..|name| - 1];
      assert IsIdent(n') by { assert forall i :: 0 <= i < |n'| ==> n'[i] == name[i]; }
      var c := name[|name| - 1];
      assert name == n' + [c];
      RunBareName(acc, curr, n');
      RunSnoc(State(acc, curr, true, false, false), n', c);
      StepIdent(State(acc, curr + n', true, false, false), c);
      assert curr + n' + [c] == curr + name;
    }
  }

  lemma RunDollarName(name: string)
    requires IsIdent(name)
    ensures Run(Start, "$" + name) == State([], name, true, false, false)
  {
    RunAppend(Start, "$", name);
    RunOne(Start, '$');
    RunBareName([], "", name);
    assert "" + name == name;
  }

  /** `$name` is one token holding the whole identifier. */
  lemma BareVariable(name: string)
    requires name != "" && IsIdent(name)
    ensures Tokenise("$" + name) == Ok([Token(name)])
  {
    RunDollarName(name);
    assert Tokenise("$" + name) == Finish(State([], name, true, false, false));
    assert [] + [Token(name)] == [Token(name)];
  }

  /** `$a$b` is two adjacent tokens: a `$` ends one bare name and opens the next. */
  lemma AdjacentVariables(a: string, b: string)
    requires a != "" && IsIdent(a) && b != "" && IsIdent(b)
    ensures Tokenise("$" + a + "$" + b) == Ok([Token(a), Token(b)])
  {
    var st := State([], a, true, false, false);
    var st2 := State([Token(a)], "", true, false, false);
    RunDollarName(a);
    assert "$" + a + "$" + b == ("$" + a) + ("$" + b);
    RunAppend(Start, "$" + a, "$" + b);
    RunAppend(st, "$", b);
    RunOne(st, '$');
    StepClose(st, '$');
    assert [] + [Token(a)] == [Token(a)];
    assert Run(st, "$") == st2;
    RunBareName([Token(a)], "", b);
    assert "" + b == b;
    assert Run(Start, "$" + a + "$" + b) == State([Token(a)], b, true, false, false);
    assert [Token(a)] + [Token(b)] == [Token(a), Token(b)];
  }

  /** Raw text without `$` writes as itself. */
  lemma {:induction false} EscapeNoDollar(v: string)
    requires '$' !in v
    ensures Escape(v) == v
    decreases |v|
  {
    if v != [] {
      var v' := v[..|v| - 1];
      assert '$' !in v' by { assert forall i :: 0 <= i < |v'| ==> v'[i] == v[i]; }
      EscapeNoDollar(v');
      assert v[|v| - 1] == Last(v);
      assert v' + [Last(v)] == v;
    }
  }

  /**
   * A character that cannot extend a name ends the token and starts new raw
   * text; straight after a bare `$` it yields a token with an empty name.
   */
  lemma VariableThenText(name: string, t: string)
    requires IsIdent(name) && t != []
    requires !IsIdentChar(t[0]) && '$' !in t && '\\' !in t
    requires name != "" || t[0] != '{'
    ensures Tokenise("$" + name + t) == Ok([Token(name), RawString(t)])
  {
    var c := t[0];
    var rest := t[1..];
    assert t == [c] + rest;
    assert '$' !in rest && '\\' !in rest;
    RunDollarName(name);
    var st := State([], name, true, false, false);
    assert "$" + name + t == ("$" + name) + ([c] + rest);
    RunAppend(Start, "$" + name, [c] + rest);
    RunAppend(st, [c], rest);
    RunOne(st, c);
    StepClose(st, c);
    assert [] + [Token(name)] == [Token(name)];
    var st2 := State([Token(name)], [c], false, false, false);
    assert Run(st, [c]) == st2;
    EscapeNoDollar(rest);
    RunEscape([Token(name)], [c], rest);
    assert Run(Start, "$" + name + t) == State([Token(name)], t, false, false, false);
    assert [Token(name)] + [RawString(t)] == [Token(name), RawString(t)];
  }

  /** A trailing `$` with no name is dropped silently. */
  lemma TrailingDollar(v: string)
    requires '\\' !in v
    ensures Tokenise(Escape(v) + "$") == Ok(if v == "" then [] else [RawString(v)])
  {
    var st := State([], "", false, false, false);
    assert st == Start;
    RunEscape([], "", v);
    assert "" + v == v;
    RunSnoc(Start, Escape(v), '$');
    assert Escape(v) + "$" == Escape(v) + ['$'];
    assert Tokenise(Escape(v) + "$") == Finish(State(Flush([], v), "", true, false, false));
    assert [] + [RawString(v)] == [RawString(v)];
  }

  lemma {:induction false} RunInsideBraces(st: State, s: string)
    requires st.inVar && st.braced && '}' !in s
    ensures Run(st, s).inVar && Run(st, s).braced && Run(st, s).acc == st.acc
    decreases |s|
  {
    if s != [] {
      var s' := s[..|s| - 1];
      assert '}' !in s' by { assert forall i :: 0 <= i < |s'| ==> s'[i] == s[i]; }
      RunInsideBraces(st, s');
      assert s[|s| - 1] == Last(s);
    }
  }

  /** `${` that is never closed is an error, whatever came before it outside a variable. */
  lemma UnclosedBraceFails(p: string, s: string)
    requires !Run(Start, p).inVar && !Run(Start, p).escaped
    requires '}' !in s
    ensures Tokenise(p + "${" + s) == Err(UnclosedBrace)
  {
    RunInv(Start, p);
    var st := Run(Start, p);
    assert p + "${" + s == p + (['$', '{'] + s);
    RunAppend(Start, p, ['$', '{'] + s);
    RunAppend(st, ['$', '{'], s);
    RunTwo(st, '$', '{');
    RunInsideBraces(Run(st, ['$', '{']), s);
  }

  // ---------------------------------------------------------------------------
  // Rendering

  /** Rendering distributes over concatenation of piece lists. */
  lemma {:induction false} RenderConcat(a: seq<Piece>, b: seq<Piece>, ctx: map<string, string>)
    ensures Render(a + b, ctx).Ok? <==> Render(a, ctx).Ok? && Render(b, ctx).Ok?
    ensures Render(a + b, ctx).Ok? ==> Render(a + b, ctx).value == Render(a, ctx).value + Render(b, ctx).value
  {
    if a == [] {
      assert a + b == b;
    } else {
      assert (a + b)[0] == a[0];
      assert (a + b)[1..] == a[1..] + b;
      RenderConcat(a[1..], b, ctx);
      if Render(a + b, ctx).Ok? {
        var head := match a[0] case RawString(v) => v case Token(n) => ctx[n];
        assert Render(a + b, ctx).value == head + Render(a[1..] + b, ctx).value;
      }
    }
  }

  /** A raw piece renders as its own text; an empty one is the not-a-token error. */
  lemma RenderRaw(v: string, ctx: map<string, string>)
    ensures Render([RawString(v)], ctx) == if v != "" then Ok(v) else Err(NotAToken)
  {
    assert [RawString(v)][1..] == [];
    if v != "" {
      assert v + "" == v;
    }
  }

  /** A single reference renders as its context value, or fails naming it. */
  lemma RenderToken(name: string, ctx: map<string, string>)
    ensures Render([Token(name)], ctx) == if name in ctx then Ok(ctx[name]) else Err(UnknownToken(name))
  {
    assert [Token(name)][1..] == [];
    if name in ctx {
      assert ctx[name] + "" == ctx[name];
    }
  }
}
