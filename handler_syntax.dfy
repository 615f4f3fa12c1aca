/** The grammar an event handler attribute (`onfocus`, `onoccur`, ...) must
    follow before the interpreter runs it: optional white space, a function
    name, `(`, `)`, an optional `;`, with white space allowed around each of
    them. The pattern is `^\s*([a-zA-Z_][0-9a-zA-Z_]*)\s*\(\s*\)\s*;?\s*$`. */
module HandlerSyntax {
  import opened Common

  predicate IsIdentStart(c: char) {
    'a' <= c <= 'z' || 'A' <= c <= 'Z' || c == '_'
  }

  predicate IsIdentChar(c: char) {
    IsIdentStart(c) || '0' <= c <= '9'
  }

  /** `[a-zA-Z_][0-9a-zA-Z_]*` */
  predicate IsIdentifier(s: string) {
    |s| > 0 && IsIdentStart(s[0]) && forall i :: 0 <= i < |s| ==> IsIdentChar(s[i])
  }

  /** What follows `)`: white space, then optionally `;` and more white
      space. Without a `;` all the white space is in `afterParen`, so that
      every matching string has one cut. */
  datatype Ending = Ending(afterParen: string, semicolon: bool, trail: string)

  /** From the name's end: white space, `(`, white space, `)`, the ending. */
  datatype Parens = Parens(beforeParen: string, insideParens: string, ending: Ending)

  /** A handler attribute cut at the places the pattern names. */
  datatype HandlerCall = HandlerCall(lead: string, funcName: string, parens: Parens)

  predicate EndingOk(e: Ending) {
    AllSpace(e.afterParen) && AllSpace(e.trail) && (!e.semicolon ==> e.trail == [])
  }

  predicate ParensOk(p: Parens) {
    AllSpace(p.beforeParen) && AllSpace(p.insideParens) && EndingOk(p.ending)
  }

  predicate WellFormed(h: HandlerCall) {
    AllSpace(h.lead) && IsIdentifier(h.funcName) && ParensOk(h.parens)
  }

  function RenderEnding(e: Ending): string {
    e.afterParen + (if e.semicolon then ";" + e.trail else [])
  }

  function RenderParens(p: Parens): string {
    p.beforeParen + ("(" + (p.insideParens + (")" + RenderEnding(p.ending))))
  }

  function Render(h: HandlerCall): string {
    h.lead + (h.funcName + RenderParens(h.parens))
  }

  /** The longest white-space prefix and the rest. */
  function SplitSpace(s: string): (p: (string, string))
    ensures p.0 + p.1 == s && AllSpace(p.0)
    ensures p.1 != [] ==> !IsJsSpace(p.1[0])
  {
    var n := LeadingSpace(s);
    assert s[..n] + s[n..] == s;
    (s[..n], s[n..])
  }

  /** Length of the longest prefix of identifier characters. */
  function IdentLength(s: string): (n: nat)
    ensures n <= |s|
    ensures forall i :: 0 <= i < n ==> IsIdentChar(s[i])
    ensures n < |s| ==> !IsIdentChar(s[n])
  {
    if s == [] || !IsIdentChar(s[0]) then 0 else 1 + IdentLength(s[1..])
  }

  function SplitIdent(s: string): (p: (string, string))
    ensures p.0 + p.1 == s
    ensures forall i :: 0 <= i < |p.0| ==> IsIdentChar(p.0[i])
    ensures p.1 != [] ==> !IsIdentChar(p.1[0])
  {
    var n := IdentLength(s);
    assert s[..n] + s[n..] == s;
    (s[..n], s[n..])
  }

  /** `\s*;?\s*$` after `)`. */
  function ParseEnding(r: string): (e: Option<Ending>)
    ensures e.Some? ==> EndingOk(e.value) && RenderEnding(e.value) == r
  {
    var (gap, r1) := SplitSpace(r);
    if r1 == [] then
      assert gap + [] == r;
      Some(Ending(gap, false, []))
    else if r1[0] != ';' then None
    else
      var (trail, r2) := SplitSpace(r1[1..]);
      if r2 == [] then
        assert r1 == ";" + trail;
        Some(Ending(gap, true, trail))
      else None
  }

  /** `\s*\(\s*\)\s*;?\s*$` after the name. */
  function ParseParens(r: string): (p: Option<Parens>)
    ensures p.Some? ==> ParensOk(p.value) && RenderParens(p.value) == r
  {
    var (gap1, r1) := SplitSpace(r);
    if r1 == [] || r1[0] != '(' then None
    else
      var (gap2, r2) := SplitSpace(r1[1..]);
      if r2 == [] || r2[0] != ')' then None
      else
        match ParseEnding(r2[1..])
        case None => None
        case Some(e) =>
          ParensPieces(r, gap1, r1, gap2, r2, e);
          Some(Parens(gap1, gap2, e))
  }

  lemma ParensPieces(r: string, gap1: string, r1: string, gap2: string, r2: string, e: Ending)
    requires gap1 + r1 == r && r1 != [] && r1[0] == '('
    requires gap2 + r2 == r1[1..] && r2 != [] && r2[0] == ')'
    requires RenderEnding(e) == r2[1..]
    ensures RenderParens(Parens(gap1, gap2, e)) == r
  {
    assert r2 == ")" + RenderEnding(e);
    assert r1 == "(" + (gap2 + r2);
  }

  /** Matches the pattern, giving the cut when it matches: whatever matches
      is a string of the grammar. The pieces are taken greedily; no piece
      can end in a character the next one may start with, so greedy
      matching finds every match the pattern has. */
  function Parse(s: string): (r: Option<HandlerCall>)
    ensures r.Some? ==> WellFormed(r.value) && Render(r.value) == s
  {
    var (lead, r1) := SplitSpace(s);
    var (name, r2) := SplitIdent(r1);
    if !IsIdentifier(name) then None
    else
      match ParseParens(r2)
      case None => None
      case Some(p) => Some(HandlerCall(lead, name, p))
  }

  /** Where a left-to-right scan of an attribute stands in the pattern. */
  datatype Phase = Lead | InName | BeforeParen | InParens | AfterParen | Trail

  /** The pattern run one character at a time from phase `ph`, with `name`
      the part of the `funcName` group read so far. */
  function Scan(s: string, ph: Phase, name: string): Option<string>
    decreases |s|
  {
    if s == [] then (if ph == AfterParen || ph == Trail then Some(name) else None)
    else
      var c := s[0];
      match ph
      case Lead =>
        if IsJsSpace(c) then Scan(s[1..], Lead, name)
        else if IsIdentStart(c) then Scan(s[1..], InName, [c])
        else None
      case InName =>
        if IsIdentChar(c) then Scan(s[1..], InName, name + [c])
        else if IsJsSpace(c) then Scan(s[1..], BeforeParen, name)
        else if c == '(' then Scan(s[1..], InParens, name)
        else None
      case BeforeParen =>
        if IsJsSpace(c) then Scan(s[1..], BeforeParen, name)
        else if c == '(' then Scan(s[1..], InParens, name)
        else None
      case InParens =>
        if IsJsSpace(c) then Scan(s[1..], InParens, name)
        else if c == ')' then Scan(s[1..], AfterParen, name)
        else None
      case AfterParen =>
        if IsJsSpace(c) then Scan(s[1..], AfterParen, name)
        else if c == ';' then Scan(s[1..], Trail, name)
        else None
      case Trail =>
        if IsJsSpace(c) then Scan(s[1..], Trail, name)
        else None
  }

  /** The `funcName` group, or nothing when the attribute does not match. */
  function FunctionName(s: string): Option<string> {
    Scan(s, Lead, [])
  }

  /** The phases that stay put on white space. */
  predicate SkipsSpace(ph: Phase) {
    ph != InName
  }

  lemma ScanSpaceStep(s: string, ph: Phase, name: string)
    requires s != [] && IsJsSpace(s[0]) && SkipsSpace(ph)
    ensures Scan(s, ph, name) == Scan(s[1..], ph, name)
  {
    SpaceIsNotIdent(s[0]);
  }

  lemma {:induction false} ScanSpaces(w: string, rest: string, ph: Phase, name: string)
    requires AllSpace(w) && SkipsSpace(ph)
    ensures Scan(w + rest, ph, name) == Scan(rest, ph, name)
    decreases |w|
  {
    if w != [] {
      assert (w + rest)[0] == w[0];
      assert (w + rest)[1..] == w[1..] + rest;
      ScanSpaceStep(w + rest, ph, name);
      ScanSpaces(w[1..], rest, ph, name);
    } else {
      assert w + rest == rest;
    }
  }

  lemma {:induction false} ScanIdentChars(chars: string, rest: string, name: string)
    requires forall i :: 0 <= i < |chars| ==> IsIdentChar(chars[i])
    ensures Scan(chars + rest, InName, name) == Scan(rest, InName, name + chars)
    decreases |chars|
  {
    if chars != [] {
      assert (chars + rest)[0] == chars[0];
      assert (chars + rest)[1..] == chars[1..] + rest;
      assert Scan(chars + rest, InName, name) == Scan(chars[1..] + rest, InName, name + [chars[0]]);
      ScanIdentChars(chars[1..], rest, name + [chars[0]]);
      assert name + [chars[0]] + chars[1..] == name + chars;
    } else {
      assert chars + rest == rest && name + chars == name;
    }
  }

  lemma ScanEnding(e: Ending, name: string)
    requires EndingOk(e)
    ensures Scan(RenderEnding(e), AfterParen, name) == Some(name)
  {
    var tail := if e.semicolon then ";" + e.trail else [];
    ScanSpaces(e.afterParen, tail, AfterParen, name);
    if e.semicolon {
      assert tail[1..] == e.trail + [];
      ScanSpaces(e.trail, [], Trail, name);
    }
  }

  lemma ScanParens(p: Parens, name: string)
    requires ParensOk(p)
    ensures Scan(RenderParens(p), InName, name) == Some(name)
  {
    var x2 := ")" + RenderEnding(p.ending);
    var x1 := "(" + (p.insideParens + x2);
    ScanEnding(p.ending, name);
    assert x2[0] == ')' && x2[1..] == RenderEnding(p.ending);
    assert Scan(x2, InParens, name) == Some(name);
    ScanSpaces(p.insideParens, x2, InParens, name);
    assert x1[0] == '(' && x1[1..] == p.insideParens + x2;
    assert Scan(x1, BeforeParen, name) == Some(name);
    assert Scan(x1, InName, name) == Some(name);
    var r := RenderParens(p);
    if p.beforeParen != [] {
      assert r[0] == p.beforeParen[0] && r[1..] == p.beforeParen[1..] + x1;
      SpaceIsNotIdent(r[0]);
      assert Scan(r, InName, name) == Scan(r[1..], BeforeParen, name);
      ScanSpaces(p.beforeParen[1..], x1, BeforeParen, name);
    } else {
      assert r == x1;
    }
  }

  /** Every string of the grammar is scanned to its name. */
  lemma ScanRender(h: HandlerCall)
    requires WellFormed(h)
    ensures FunctionName(Render(h)) == Some(h.funcName)
  {
    var rest := RenderParens(h.parens);
    var x := h.funcName + rest;
    ScanSpaces(h.lead, x, Lead, []);
    assert x[0] == h.funcName[0] && x[1..] == h.funcName[1..] + rest;
    ScanIdentChars(h.funcName[1..], rest, [h.funcName[0]]);
    assert [h.funcName[0]] + h.funcName[1..] == h.funcName;
    ScanParens(h.parens, h.funcName);
  }

  lemma {:induction false} TrailScanned(s: string, name: string)
    requires Scan(s, Trail, name).Some?
    ensures AllSpace(s) && Scan(s, Trail, name) == Some(name)
    decreases |s|
  {
    if s != [] {
      TrailScanned(s[1..], name);
      assert s == [s[0]] + s[1..];
    }
  }

  lemma {:induction false} EndingScanned(s: string, name: string) returns (e: Ending)
    requires Scan(s, AfterParen, name).Some?
    ensures EndingOk(e) && RenderEnding(e) == s && Scan(s, AfterParen, name) == Some(name)
    decreases |s|
  {
    if s == [] {
      e := Ending([], false, []);
    } else if IsJsSpace(s[0]) {
      var e' := EndingScanned(s[1..], name);
      e := e'.(afterParen := [s[0]] + e'.afterParen);
      assert s == [s[0]] + s[1..];
    } else {
      TrailScanned(s[1..], name);
      e := Ending([], true, s[1..]);
      assert s == ";" + s[1..];
    }
  }

  lemma {:induction false} InParensScanned(s: string, name: string) returns (inside: string, e: Ending)
    requires Scan(s, InParens, name).Some?
    ensures AllSpace(inside) && EndingOk(e) && inside + (")" + RenderEnding(e)) == s
    ensures Scan(s, InParens, name) == Some(name)
    decreases |s|
  {
    if IsJsSpace(s[0]) {
      var inside';
      inside', e := InParensScanned(s[1..], name);
      inside := [s[0]] + inside';
      assert s == [s[0]] + s[1..];
    } else {
      e := EndingScanned(s[1..], name);
      inside := [];
      assert s == ")" + s[1..];
    }
  }

  lemma {:induction false} ParensScanned(s: string, name: string) returns (p: Parens)
    requires Scan(s, BeforeParen, name).Some?
    ensures ParensOk(p) && RenderParens(p) == s && Scan(s, BeforeParen, name) == Some(name)
    decreases |s|
  {
    if IsJsSpace(s[0]) {
      var p' := ParensScanned(s[1..], name);
      p := p'.(beforeParen := [s[0]] + p'.beforeParen);
      assert s == [s[0]] + s[1..];
    } else {
      var inside, e := InParensScanned(s[1..], name);
      p := Parens([], inside, e);
      assert s == "(" + s[1..];
    }
  }

  lemma {:induction false} NameScanned(s: string, name: string) returns (chars: string, p: Parens)
    requires Scan(s, InName, name).Some?
    ensures forall i :: 0 <= i < |chars| ==> IsIdentChar(chars[i])
    ensures ParensOk(p) && chars + RenderParens(p) == s && Scan(s, InName, name) == Some(name + chars)
    decreases |s|
  {
    if IsIdentChar(s[0]) {
      assert Scan(s, InName, name) == Scan(s[1..], InName, name + [s[0]]);
      var chars';
      chars', p := NameScanned(s[1..], name + [s[0]]);
      chars := [s[0]] + chars';
      assert s == [s[0]] + s[1..];
      assert name + [s[0]] + chars' == name + chars;
      assert forall i :: 0 <= i < |chars| ==> IsIdentChar(chars[i]) by {
        forall i | 0 <= i < |chars| ensures IsIdentChar(chars[i]) {
          if i > 0 {
            assert chars[i] == chars'[i - 1];
          }
        }
      }
    } else {
      NameEnds(s, name);
      p := ParensScanned(s, name);
      chars := [];
      assert s == [] + s && name + [] == name;
    }
  }

  /** Once a character that cannot be in a name is read, the name has ended. */
  lemma NameEnds(s: string, name: string)
    requires s != [] && !IsIdentChar(s[0])
    ensures Scan(s, InName, name) == Scan(s, BeforeParen, name)
  {
  }

  /** A scanned attribute is a string of the grammar, cut where the name is. */
  lemma {:induction false} LeadScanned(s: string) returns (h: HandlerCall)
    requires FunctionName(s).Some?
    ensures WellFormed(h) && Render(h) == s && FunctionName(s) == Some(h.funcName)
    decreases |s|
  {
    if IsJsSpace(s[0]) {
      var h' := LeadScanned(s[1..]);
      h := h'.(lead := [s[0]] + h'.lead);
      assert s == [s[0]] + s[1..];
    } else {
      var chars, p := NameScanned(s[1..], [s[0]]);
      h := HandlerCall([], [s[0]] + chars, p);
      assert s == [s[0]] + s[1..];
    }
  }

  /** The scan and the grammar agree on every attribute: the scan gives a
      name exactly when the attribute matches, and then the name is the
      match's `funcName` group, an identifier. */
  lemma FunctionNameIsGroup(s: string)
    ensures FunctionName(s).Some? <==> Parse(s).Some?
    ensures Parse(s).Some? ==> FunctionName(s) == Some(Parse(s).value.funcName)
    ensures FunctionName(s).Some? ==> IsIdentifier(FunctionName(s).value)
  {
    if Parse(s).Some? {
      ScanRender(Parse(s).value);
    }
    if FunctionName(s).Some? {
      var h := LeadScanned(s);
      ParseRender(h);
    }
  }

  /** `/^\s * $ /`, the pattern checked first for a blank handler, token by
      token: the start, one white-space character `s[0]`, any number of
      spaces `s[1..j]`, one space `s[j]`, the end of the input at `j + 1`,
      and one more space `s[j + 1]`, which cannot follow the end. */
  ghost predicate BlankPatternMatches(s: string) {
    exists j: nat ::
      && 1 <= j < |s|
      && IsJsSpace(s[0])
      && (forall k :: 1 <= k < j ==> s[k] == ' ')
      && s[j] == ' '
      && j + 1 < |s| && s[j + 1] == ' '
      && j + 1 == |s|
  }

  /** The blank pattern matches nothing. */
  lemma BlankPatternNeverMatches(s: string)
    ensures !BlankPatternMatches(s)
  {
  }

  lemma SpaceIsNotIdent(c: char)
    requires IsJsSpace(c)
    ensures !IsIdentChar(c)
  {
  }

  /** The white-space split of `w + rest` is `w` and `rest` when `rest` does
      not start with white space. */
  lemma SplitSpaceOf(w: string, rest: string)
    requires AllSpace(w)
    requires rest != [] ==> !IsJsSpace(rest[0])
    ensures SplitSpace(w + rest) == (w, rest)
  {
    var s := w + rest;
    var n := LeadingSpace(s);
    assert forall k :: 0 <= k < |w| ==> IsJsSpace(s[k]);
    assert n >= |w|;
    assert rest != [] ==> s[|w|] == rest[0];
    assert s[..|w|] == w && s[|w|..] == rest;
  }

  lemma SplitIdentOf(name: string, rest: string)
    requires forall i :: 0 <= i < |name| ==> IsIdentChar(name[i])
    requires rest != [] ==> !IsIdentChar(rest[0])
    ensures SplitIdent(name + rest) == (name, rest)
  {
    var s := name + rest;
    var n := IdentLength(s);
    assert forall k :: 0 <= k < |name| ==> IsIdentChar(s[k]);
    assert n >= |name|;
    assert rest != [] ==> s[|name|] == rest[0];
    assert s[..|name|] == name && s[|name|..] == rest;
  }

  lemma ParseEndingOf(e: Ending)
    requires EndingOk(e)
    ensures ParseEnding(RenderEnding(e)) == Some(e)
  {
    var tail := if e.semicolon then ";" + e.trail else [];
    SplitSpaceOf(e.afterParen, tail);
    if e.semicolon {
      assert tail[1..] == e.trail + [];
      SplitSpaceOf(e.trail, []);
    } else {
      assert RenderEnding(e) == e.afterParen + [];
    }
  }

  lemma ParseParensOf(p: Parens)
    requires ParensOk(p)
    ensures ParseParens(RenderParens(p)) == Some(p)
  {
    var x2 := ")" + RenderEnding(p.ending);
    var x1 := "(" + (p.insideParens + x2);
    SplitSpaceOf(p.beforeParen, x1);
    assert x1[1..] == p.insideParens + x2;
    SplitSpaceOf(p.insideParens, x2);
    assert x2[1..] == RenderEnding(p.ending);
    ParseEndingOf(p.ending);
  }

  /** Every string of the grammar matches, and the cut comes back whole. */
  lemma ParseRender(h: HandlerCall)
    requires WellFormed(h)
    ensures Parse(Render(h)) == Some(h)
  {
    var rest := RenderParens(h.parens);
    var x := h.funcName + rest;
    SplitSpaceOf(h.lead, x);
    assert x[0] == h.funcName[0];
    if rest != [] && h.parens.beforeParen != [] {
      assert rest[0] == h.parens.beforeParen[0];
      SpaceIsNotIdent(rest[0]);
    }
    SplitIdentOf(h.funcName, rest);
    ParseParensOf(h.parens);
  }

  /** An attribute of white space alone does not match, so running it throws. */
  lemma BlankHandlerRejected(s: string)
    requires AllSpace(s)
    ensures Parse(s) == None
  {
    var n := LeadingSpace(s);
    assert n == |s|;
    var (lead, r1) := SplitSpace(s);
    assert r1 == [];
  }
}
