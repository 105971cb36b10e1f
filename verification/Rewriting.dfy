/** The same on text: when the text that is printed for the tree of a document is read as the
    same tree. */
module Rewriting {
  import opened Xml
  import opened Namespaces
  import opened Escaping
  import opened Printing
  import opened Parsing
  import opened RoundTrip
  import opened Lexing
  import opened Documents
  import opened Misreading
  import opened Reprinting
  import opened Exactness
  import opened Rereading

  // ---- what the tokenizer delivers -----------------------------------------------------

  /** Attributes with names, no name twice, and values and text of printable characters. */
  ghost predicate Lexed(t: Token) {
    match t
    case Start(tag, atts) => IsName(tag) && UniqueAtts(atts) && NamedAtts(atts) && ValueAtts(atts)
    case Chars(chunk) => IsTextual(chunk)
    case End(_) => true
  }

  ghost predicate AllLexed(r: Option<seq<Token>>) {
    r.Some? ==> forall i :: 0 <= i < |r.value| ==> Lexed(r.value[i])
  }

  lemma PrependLexed(ts: seq<Token>, r: Option<seq<Token>>)
    requires AllLexed(r) && AllLexed(Some(ts))
    ensures AllLexed(Prepend(ts, r))
  {
    hide Lexed;
    if r.Some? {
      forall i | 0 <= i < |ts + r.value| ensures Lexed((ts + r.value)[i]) {
        if i < |ts| { assert Lexed(Some(ts).value[i]); } else { assert Lexed(r.value[i - |ts|]); }
      }
    }
  }

  lemma {:induction false} ReadValueChars(s: string)
    ensures var r := ReadValue(s); r.Some? ==> IsValue(r.value.0)
    decreases |s|
  {
    if s != "" && s[0] != '"' {
      if s[0] == '&' {
        if Entity(s).Some? {
          var (c, n) := Entity(s).value;
          ReadValueChars(s[n..]);
          assert IsValueChar(c);
        }
      } else if "\r\n" <= s {
        ReadValueChars(s[2..]);
      } else {
        ReadValueChars(s[1..]);
      }
    }
  }

  lemma {:induction false} ReadAttsGood(s: string)
    ensures var r := ReadAtts(s); r.Some? ==> NamedAtts(r.value.0) && ValueAtts(r.value.0)
    decreases |s|
  {
    hide ReadValue, IsName, IsValue;
    if s != "" && s[0] == ' ' {
      var n := NameLength(s[1..]);
      var after := s[1 + n..];
      if "=\"" <= after {
        ReadValueChars(after[2..]);
        var v := ReadValue(after[2..]);
        if v.Some? {
          ReadAttsGood(v.value.1);
        }
      }
    }
  }

  lemma {:induction false} LexLexed(s: string, open: seq<string>)
    ensures AllLexed(Lex(s, open))
    decreases |s|, 1
  {
    hide Lexed, AllLexed;
    NothingLexed();
    if s != "" {
      if s[0] == '<' {
        if |s| > 1 && s[1] == '/' {
          EndLexed(s[2..], open);
        } else {
          StartLexed(s[1..], open);
        }
      } else if open != [] {
        if s[0] == '&' {
          if Entity(s).Some? {
            LexLexed(s[Entity(s).value.1..], open);
            CharLexed(Entity(s).value.0);
            PrependLexed([Chars([Entity(s).value.0])], Lex(s[Entity(s).value.1..], open));
          }
        } else if s[0] == '\r' {
          var rest := if "\r\n" <= s then s[2..] else s[1..];
          LexLexed(rest, open);
          CharLexed('\n');
          PrependLexed([Chars("\n")], Lex(rest, open));
        } else if IsTextChar(s[0]) {
          LexLexed(s[1..], open);
          CharLexed(s[0]);
          PrependLexed([Chars([s[0]])], Lex(s[1..], open));
        }
      }
    }
  }

  lemma NothingLexed()
    ensures AllLexed(None) && AllLexed(Some([]))
  {
  }

  lemma CharLexed(c: char)
    requires IsTextChar(c)
    ensures AllLexed(Some([Chars([c])]))
  {
  }

  lemma {:induction false} AfterLexed(s: string, open: seq<string>)
    ensures AllLexed(After(s, open))
    decreases |s|, 2
  {
    if open != [] {
      LexLexed(s, open);
    }
  }

  lemma {:induction false} StartLexed(s: string, open: seq<string>)
    ensures AllLexed(LexStart(s, open))
    decreases |s|, 2
  {
    var n := NameLength(s);
    var r := ReadAtts(s[n..]);
    if IsName(s[..n]) && r.Some? {
      ReadAttsGood(s[n..]);
      CloseLexed(Start(s[..n], r.value.0), r.value.1, open);
    }
  }

  lemma {:induction false} CloseLexed(start: Token, rest: string, open: seq<string>)
    requires start.Start? && IsName(start.tag) && NamedAtts(start.atts) && ValueAtts(start.atts)
    ensures AllLexed(LexClose(start, rest, open))
    decreases |rest|, 1
  {
    if UniqueAtts(start.atts) {
      if "/>" <= rest {
        AfterLexed(rest[2..], open);
        PrependLexed([start, End(start.tag)], After(rest[2..], open));
      } else if ">" <= rest {
        AfterLexed(rest[1..], open + [start.tag]);
        PrependLexed([start], After(rest[1..], open + [start.tag]));
      }
    }
  }

  lemma {:induction false} EndLexed(s: string, open: seq<string>)
    ensures AllLexed(LexEnd(s, open))
    decreases |s|, 0
  {
    var n := NameLength(s);
    if open != [] && ">" <= s[n..] {
      AfterLexed(s[n + 1..], open[..|open| - 1]);
      PrependLexed([End(s[..n])], After(s[n + 1..], open[..|open| - 1]));
    }
  }

  // ---- the tree can be spelled ---------------------------------------------------------

  /** The part after a colon begins like a name, as section 4 of Namespaces in XML 1.0
      requires of it. */
  predicate LocalStarts(s: string) {
    var i := Find(s, ':');
    i + 1 < |s| ==> IsNameStart(s[i + 1])
  }

  /** A tag whose names are spelled as they should be, as far as a tokenizer does not see to
      it. */
  predicate QNamed(t: Token) {
    t.Start? ==>
      && IsSpelled(t.tag) && LocalStarts(t.tag)
      && forall i :: 0 <= i < |t.atts| ==> IsSpelled(t.atts[i].name) && LocalStarts(t.atts[i].name)
  }

  lemma ResolvedIsNCName(c: Bindings, s: string, isAttr: bool)
    requires IsName(s) && IsSpelled(s) && LocalStarts(s) && !Resolve(c, s, isAttr).IsEmpty()
    ensures IsNCName(Resolve(c, s, isAttr).local)
  {
    var i := Find(s, ':');
    if i < |s| {
      var l := s[i + 1..];
      assert forall k :: 0 <= k < |l| ==> l[k] == s[i + 1 + k];
    } else {
      assert s[..|s|] == s;
    }
  }

  /** The tree can be spelled, and its characters survive. */
  ghost predicate Legible(n: Node) { Spellable(n) && Carried(n) }

  /** What reading a text keeps. */
  ghost predicate Spelling(p: Parser) {
    p.raised == ERROR_NONE ==>
      && (forall i :: 0 <= i < |p.open| ==> Legible(p.open[i].Closed()))
      && (p.root.Some? ==> Legible(p.root.value))
  }

  lemma TextualConcat(s: string, t: string)
    requires IsTextual(s) && IsTextual(t)
    ensures IsTextual(s + t)
  {
  }

  lemma AddChildLegible(el: OpenElement, n: Node)
    requires Legible(el.Closed()) && Legible(n)
    ensures Legible(el.(children := AddChild(el.children, n)).Closed())
  {
    var kids, now := el.children, AddChild(el.children, n);
    forall i | 0 <= i < |now| ensures Legible(now[i]) {
      if i < |kids| && now[i] != kids[i] {
        assert Carried(el.Closed().children[i]);
        TextualConcat(kids[i].text, n.text);
      }
    }
  }

  lemma AttachSpelling(p: Parser, n: Node)
    requires p.raised == ERROR_NONE && Spelling(p) && Legible(n)
    ensures Spelling(Attach(p, n))
  {
    hide Legible, AddChild;
    if p.open != [] {
      AddChildLegible(p.open[|p.open| - 1], n);
    }
  }

  lemma EndSpelling(p: Parser)
    requires p.raised == ERROR_NONE && Spelling(p)
    ensures Spelling(OnEnd(p))
  {
    hide Legible, Attach;
    if p.depths != [] && p.open != [] {
      var n, d := |p.open| - 1, |p.depths| - 1;
      var q := p.(ns := PopBindings(p.ns, p.depths[d]), depths := p.depths[..d], open := p.open[..n]);
      AttachSpelling(q, p.open[n].Closed());
    }
  }

  lemma StartSpelling(p: Parser, t: Token)
    requires p.raised == ERROR_NONE && GoodStack(p.ns) && Spelling(p) && t.Start? && Lexed(t) && QNamed(t)
    ensures Spelling(Step(p, t))
  {
    hide Legible, Lexed, QNamed, StartDecls, Build, GoodStack;
    var (decls, ok) := StartDecls(t.atts);
    var el := Build(p.ns + decls, t.tag, t.atts);
    if ok && el.Some? {
      BuildLegible(p.ns, t);
    }
  }

  lemma BuildLegible(b: Bindings, t: Token)
    requires t.Start? && Lexed(t) && QNamed(t) && GoodStack(b)
    ensures var el := Build(b + StartDecls(t.atts).0, t.tag, t.atts); el.Some? ==> Legible(el.value.Closed())
  {
    hide Resolve, StartDecls, IsSpelled, LocalStarts, IsName, BuildAttrs, IsNCName, GoodStack, IsValue, Joined;
    var c := b + StartDecls(t.atts).0;
    var el := Build(c, t.tag, t.atts);
    DeclsGood(t.atts);
    GoodConcat(b, StartDecls(t.atts).0);
    BuildShaped(c, t.tag, t.atts);
    if el.Some? {
      var attrs := el.value.attrs;
      ResolvedIsNCName(c, t.tag, false);
      forall i | 0 <= i < |attrs| ensures IsNCName(attrs[i].name.local) && IsValue(attrs[i].value) {
        ResolvedIsNCName(c, t.atts[i].name, true);
      }
    }
  }

  lemma QNamedSpelled(t: Token)
    requires Lexed(t) && QNamed(t)
    ensures Spelled(t)
  {
  }

  lemma StepSpelling(p: Parser, t: Token)
    requires Shaped(p) && Spelling(p) && Lexed(t) && QNamed(t)
    ensures Spelling(Step(p, t))
  {
    if p.raised == ERROR_NONE {
      hide QNamed, ShapedNode;
      match t
      case Start(_, _) => StartSpelling(p, t);
      case Chars(c) => AttachSpelling(p, Text(c));
      case End(_) => EndSpelling(p);
    }
  }

  lemma {:induction false} RunSpelling(p: Parser, ts: seq<Token>)
    requires Shaped(p) && Spelling(p) && forall i :: 0 <= i < |ts| ==> Lexed(ts[i]) && QNamed(ts[i])
    ensures Spelling(Run(p, ts))
    decreases ts
  {
    if ts != [] {
      hide Shaped, Spelling, Lexed, QNamed;
      QNamedSpelled(ts[0]);
      StepShaped(p, ts[0]);
      StepSpelling(p, ts[0]);
      RunSpelling(Step(p, ts[0]), ts[1..]);
    }
  }

  // ---- the theorems --------------------------------------------------------------------

  /** Reading, printing and reading again is the same as reading, for every text that is read
      and whose names are spelled as they should be, if and only if the tree declares what it
      uses. */
  lemma ReadPrintReadIff(s: string)
    requires ForStr(s).Some? && forall i :: 0 <= i < |Lex(s, []).value| ==> QNamed(Lex(s, []).value[i])
    ensures var t := ForStr(s).value; ForStr(NodeText(t, [])) == Some(t) <==> Scoped(t, [])
  {
    hide Lex, Run, Scoped, Spellable, Carried, NodeText, Lexed, QNamed, WellNamed, Joined, Spelled;
    var ts := Lex(s, []).value;
    LexLexed(s, []);
    FreshShaped();
    RunSpelling(FreshParser, ts);
    forall i | 0 <= i < |ts| ensures Spelled(ts[i]) {
      QNamedSpelled(ts[i]);
    }
    RunShaped(FreshParser, ts);
    SameTextIff(ForStr(s).value);
  }

  /** In a conforming document it always does. */
  lemma ReadPrintRead(s: string)
    requires ForStr(s).Some?
    requires forall i :: 0 <= i < |Lex(s, []).value| ==> QNamed(Lex(s, []).value[i]) && Conforms(Lex(s, []).value[i])
    ensures ForStr(NodeText(ForStr(s).value, [])) == ForStr(s)
  {
    hide Lex, Run, Scoped, NodeText, Lexed, QNamed, Conforms, Spelled, Decorate, Namable, Tokens;
    var ts := Lex(s, []).value;
    LexLexed(s, []);
    forall i | 0 <= i < |ts| ensures Spelled(ts[i]) {
      QNamedSpelled(ts[i]);
    }
    ReadThenPrint(ts);
    ReadPrintReadIff(s);
  }
}
