/** The seven-state tokenizer of
    nix/overlay/build-support/expand-response-params/expand-response-params.c, as the
    loop in expandArg drives it, and the quoting grammar it recognises. */
module Tokenizer {
  import W = Words

  type Byte = W.Byte
  type Text = seq<Byte>

  datatype CharClass = Space | Other | Backslash | Apostrophe | QuotationMark
  datatype State = Outside | Unq | UnqEsc | Sq | SqEsc | Dq | DqEsc

  const EOF: int := -1
  const BACKSLASH: Byte := 92
  const APOSTROPHE: Byte := 39
  const QUOTE: Byte := 34
  const BLANK: Byte := 32

  /** isspace in the C locale; false of EOF. */
  predicate IsSpace(c: int) { c == 32 || 9 <= c <= 13 }

  function CharClassOf(c: int): CharClass {
    if c == BACKSLASH then Backslash
    else if c == APOSTROPHE then Apostrophe
    else if c == QUOTE then QuotationMark
    else if IsSpace(c) then Space
    else Other
  }

  /** The transitions table, one row a state. */
  function Transition(cur: State, class': CharClass): State {
    match cur
    case Outside | Unq => (
      match class'
      case Space => Outside
      case Other => Unq
      case Backslash => UnqEsc
      case Apostrophe => Sq
      case QuotationMark => Dq)
    case UnqEsc => Unq
    case Sq => if class'.Backslash? then SqEsc else if class'.Apostrophe? then Unq else Sq
    case SqEsc => Sq
    case Dq => if class'.Backslash? then DqEsc else if class'.QuotationMark? then Unq else Dq
    case DqEsc => Dq
  }

  function Next(cur: State, c: int): State { Transition(cur, CharClassOf(c)) }

  /** The character completes an argument. */
  predicate Ends(cur: State, c: int) {
    (cur == Unq && Next(cur, c) == Outside) || (cur != Outside && c == EOF)
  }

  /** The character is part of the argument. */
  predicate Keeps(cur: State, c: int) {
    || cur == UnqEsc || cur == SqEsc || cur == DqEsc
    || (if cur == Outside then Next(cur, c) == Unq else cur == Next(cur, c))
  }

  // ------------------------------------------------------ a whole text

  /** The arguments completed so far, the state, and the argument under way. */
  datatype Progress = Progress(words: seq<Text>, state: State, arg: Text)

  const START: Progress := Progress([], Outside, [])

  function Feed(p: Progress, c: Byte): Progress {
    if Ends(p.state, c) then Progress(p.words + [p.arg], Next(p.state, c), [])
    else Progress(p.words, Next(p.state, c), if Keeps(p.state, c) then p.arg + [c] else p.arg)
  }

  function Run(p: Progress, s: Text): Progress
    decreases s
  {
    if s == [] then p else Run(Feed(p, s[0]), s[1..])
  }

  /** At the end of the text an argument under way is complete, even an empty one. */
  function Finish(p: Progress): seq<Text> {
    if Ends(p.state, EOF) then p.words + [p.arg] else p.words
  }

  function Tokens(s: Text): seq<Text> { Finish(Run(START, s)) }

  function EndState(s: Text): State { Run(START, s).state }

  lemma {:induction false} RunConcat(p: Progress, s: Text, u: Text)
    ensures Run(p, s + u) == Run(Run(p, s), u)
    decreases s
  {
    hide Feed;
    if s == [] {
      assert s + u == u;
    } else {
      assert (s + u)[1..] == s[1..] + u;
      RunConcat(Feed(p, s[0]), s[1..], u);
    }
  }

  lemma RunOne(p: Progress, c: Byte)
    ensures Run(p, [c]) == Feed(p, c)
  {
    hide Feed;
    assert Run(Feed(p, c), []) == Feed(p, c);
  }

  /** What is complete already does not influence the rest. */
  lemma {:induction false} RunFrom(words: seq<Text>, state: State, arg: Text, s: Text)
    ensures var r := Run(Progress([], state, arg), s);
      Run(Progress(words, state, arg), s) == Progress(words + r.words, r.state, r.arg)
    decreases s
  {
    hide Next, Keeps, Ends;
    if s != [] {
      var p := Feed(Progress([], state, arg), s[0]);
      assert Feed(Progress(words, state, arg), s[0]) == Progress(words + p.words, p.state, p.arg);
      RunFrom(words + p.words, p.state, p.arg, s[1..]);
      RunFrom(p.words, p.state, p.arg, s[1..]);
      assert words + (p.words + Run(Progress([], p.state, p.arg), s[1..]).words)
          == words + p.words + Run(Progress([], p.state, p.arg), s[1..]).words;
    }
  }

  /** Between arguments nothing is under way. */
  lemma {:induction false} OutsideIsEmpty(p: Progress, s: Text)
    requires p.state == Outside ==> p.arg == []
    ensures Run(p, s).state == Outside ==> Run(p, s).arg == []
    decreases s
  {
    if s != [] { OutsideIsEmpty(Feed(p, s[0]), s[1..]); }
  }

  /** Arguments completed part-way are the first arguments of the whole. */
  lemma PrefixTokens(s: Text, k: nat)
    requires k <= |s|
    ensures Run(START, s[..k]).words <= Tokens(s)
    ensures k == |s| ==> Run(START, s[..k]) == Run(START, s)
  {
    hide Feed, Run;
    var p := Run(START, s[..k]);
    assert s == s[..k] + s[k..];
    RunConcat(START, s[..k], s[k..]);
    RunFrom(p.words, p.state, p.arg, s[k..]);
    assert k == |s| ==> s[..k] == s;
  }

  // ------------------------------------------------------ joining texts

  /** An argument under way is a prefix of the next one completed. */
  lemma {:induction false} FirstWord(p: Progress, s: Text)
    requires p.state != Outside && p.words == []
    ensures Finish(Run(p, s)) != [] && p.arg <= Finish(Run(p, s))[0]
    decreases s
  {
    if s != [] {
      var q := Feed(p, s[0]);
      if q.words == [] {
        FirstWord(q, s[1..]);
      } else {
        RunFrom(q.words, q.state, q.arg, s[1..]);
      }
    }
  }

  /** Blank, tab, newline and their kin each separate two texts exactly when the first
      ends outside quotes and not after a dangling backslash. */
  lemma TokensOfJoin(s: Text, c: Byte, u: Text)
    requires c == 32 || c == 9 || c == 10 || c == 11 || c == 12 || c == 13
    ensures Tokens(s + [c] + u) == Tokens(s) + Tokens(u) <==> EndState(s) == Outside || EndState(s) == Unq
  {
    hide Run;
    var p := Run(START, s);
    var q := Feed(p, c);
    OutsideIsEmpty(START, s);
    RunConcat(START, s + [c], u);
    RunConcat(START, s, [c]);
    RunOne(p, c);
    RunFrom(q.words, q.state, q.arg, u);
    if p.state == Outside || p.state == Unq {
      assert q == Progress(Tokens(s), Outside, []);
    } else {
      assert q.words == p.words && q.arg == p.arg + [c];
      Unseparated(p, q, u, Tokens(u));
    }
  }

  /** An argument still under way does not end where a longer one continues. */
  lemma Unseparated(p: Progress, q: Progress, u: Text, others: seq<Text>)
    requires p.state != Outside && q.state != Outside && q.words == p.words && p.arg < q.arg
    ensures Finish(Run(q, u)) != Finish(p) + others
  {
    hide Run;
    RunFrom(q.words, q.state, q.arg, u);
    FirstWord(Progress([], q.state, q.arg), u);
    var rest := Finish(Run(Progress([], q.state, q.arg), u));
    assert Finish(Run(q, u)) == p.words + rest;
    assert Finish(p) + others == p.words + ([p.arg] + others);
    assert (p.words + rest)[|p.words|] == rest[0];
    assert (p.words + ([p.arg] + others))[|p.words|] == p.arg;
  }

  lemma RunTwo(p: Progress, c: Byte, d: Byte)
    ensures Run(p, [c, d]) == Feed(Feed(p, c), d)
  {
    hide Feed;
    RunOne(p, c);
    RunOne(Feed(p, c), d);
    RunConcat(p, [c], [d]);
    assert [c] + [d] == [c, d];
  }

  lemma RunThree(p: Progress, c: Byte, d: Byte, e: Byte)
    ensures Run(p, [c, d, e]) == Feed(Feed(Feed(p, c), d), e)
  {
    hide Feed;
    RunTwo(p, c, d);
    RunOne(Feed(Feed(p, c), d), e);
    RunConcat(p, [c, d], [e]);
    assert [c, d] + [e] == [c, d, e];
  }

  /** No other byte separates arguments: between an a and a b only these six do. */
  lemma OnlyTheseSeparate(c: Byte)
    ensures |Tokens([97, c, 98])| == 2 <==> c == 32 || c == 9 || c == 10 || c == 11 || c == 12 || c == 13
  {
    hide Run;
    RunThree(START, 97, c, 98);
  }

  // ------------------------------------------------------ the quoting grammar

  /** A character inside quotes, as itself or after a backslash. */
  datatype Unit = Raw(c: Byte) | Escaping(c: Byte)

  /** A text is a sequence of blanks, plain characters, characters after a backslash
      and quoted stretches; an argument is a maximal run without a blank. */
  datatype Lexeme =
    | Gap(c: Byte)
    | Plain(c: Byte)
    | Escaped(c: Byte)
    | Single(body: seq<Unit>)
    | Double(body: seq<Unit>)

  predicate UnitFits(u: Unit, quote: Byte) { u.Raw? ==> u.c != BACKSLASH && u.c != quote }

  predicate WellFormed(x: Lexeme) {
    match x
    case Gap(c) => IsSpace(c)
    case Plain(c) => CharClassOf(c) == Other
    case Escaped(_) => true
    case Single(body) => forall i :: 0 <= i < |body| ==> UnitFits(body[i], APOSTROPHE)
    case Double(body) => forall i :: 0 <= i < |body| ==> UnitFits(body[i], QUOTE)
  }

  function UnitText(u: Unit): Text { if u.Raw? then [u.c] else [BACKSLASH, u.c] }

  function BodyText(body: seq<Unit>): Text {
    if body == [] then [] else BodyText(body[..|body| - 1]) + UnitText(body[|body| - 1])
  }

  function BodyValue(body: seq<Unit>): Text {
    if body == [] then [] else BodyValue(body[..|body| - 1]) + [body[|body| - 1].c]
  }

  /** How a lexeme is spelt. */
  function Spelling(x: Lexeme): Text {
    match x
    case Gap(c) => [c]
    case Plain(c) => [c]
    case Escaped(c) => [BACKSLASH, c]
    case Single(body) => [APOSTROPHE] + BodyText(body) + [APOSTROPHE]
    case Double(body) => [QUOTE] + BodyText(body) + [QUOTE]
  }

  /** What it contributes to its argument. */
  function Value(x: Lexeme): Text {
    match x
    case Gap(_) => []
    case Plain(c) => [c]
    case Escaped(c) => [c]
    case Single(body) => BodyValue(body)
    case Double(body) => BodyValue(body)
  }

  function Render(doc: seq<Lexeme>): Text {
    if doc == [] then [] else Spelling(doc[0]) + Render(doc[1..])
  }

  predicate AllWellFormed(doc: seq<Lexeme>) { forall i :: 0 <= i < |doc| ==> WellFormed(doc[i]) }

  predicate StartsInWord(doc: seq<Lexeme>) { doc != [] && !doc[0].Gap? }

  /** The arguments of a document: the values of its maximal runs without a gap. */
  function Words(doc: seq<Lexeme>): (r: seq<Text>)
    ensures StartsInWord(doc) ==> r != []
  {
    if doc == [] then []
    else if doc[0].Gap? then Words(doc[1..])
    else if !StartsInWord(doc[1..]) then [Value(doc[0])] + Words(doc[1..])
    else [Value(doc[0]) + Words(doc[1..])[0]] + Words(doc[1..])[1..]
  }

  /** Inside quotes the units add their characters and the state stays. */
  lemma {:induction false} RunBody(words: seq<Text>, arg: Text, body: seq<Unit>, single: bool)
    requires forall i :: 0 <= i < |body| ==> UnitFits(body[i], if single then APOSTROPHE else QUOTE)
    ensures var st := if single then Sq else Dq;
      Run(Progress(words, st, arg), BodyText(body)) == Progress(words, st, arg + BodyValue(body))
    decreases body
  {
    hide Run, UnitFits, UnitText;
    var st := if single then Sq else Dq;
    var p := Progress(words, st, arg);
    if body == [] {
      RunNone(p);
    } else {
      var n := |body| - 1;
      var u := body[n];
      RunBody(words, arg, body[..n], single);
      RunConcat(p, BodyText(body[..n]), UnitText(u));
      RunUnit(Progress(words, st, arg + BodyValue(body[..n])), u, single);
    }
  }

  lemma RunUnit(p: Progress, u: Unit, single: bool)
    requires UnitFits(u, if single then APOSTROPHE else QUOTE) && p.state == if single then Sq else Dq
    ensures Run(p, UnitText(u)) == Progress(p.words, p.state, p.arg + [u.c])
  {
    hide Run;
    RunPair(p, u.c);
    RunOne(p, u.c);
  }

  lemma RunNone(p: Progress)
    ensures Run(p, []) == p
  {}

  lemma RunPair(p: Progress, c: Byte)
    ensures Run(p, [BACKSLASH, c]) == Feed(Feed(p, BACKSLASH), c)
  {
    hide Feed;
    RunOne(p, BACKSLASH);
    RunOne(Feed(p, BACKSLASH), c);
    RunConcat(p, [BACKSLASH], [c]);
    assert [BACKSLASH] + [c] == [BACKSLASH, c];
  }

  /** One lexeme of an argument. */
  lemma RunLexeme(words: seq<Text>, state: State, arg: Text, x: Lexeme)
    requires WellFormed(x) && !x.Gap? && (state == Outside || state == Unq)
    ensures Run(Progress(words, state, arg), Spelling(x)) == Progress(words, Unq, arg + Value(x))
  {
    hide Run, BodyText, BodyValue;
    var p := Progress(words, state, arg);
    match x
    case Plain(c) => RunOne(p, c);
    case Escaped(c) => RunPair(p, c);
    case Single(body) => RunQuoted(p, body, true);
    case Double(body) => RunQuoted(p, body, false);
  }

  lemma RunQuoted(p: Progress, body: seq<Unit>, single: bool)
    requires p.state == Outside || p.state == Unq
    requires forall i :: 0 <= i < |body| ==> UnitFits(body[i], if single then APOSTROPHE else QUOTE)
    ensures var q := if single then APOSTROPHE else QUOTE;
      Run(p, [q] + BodyText(body) + [q]) == Progress(p.words, Unq, p.arg + BodyValue(body))
  {
    hide Run, BodyText, BodyValue;
    var q, st := if single then APOSTROPHE else QUOTE, if single then Sq else Dq;
    RunOne(p, q);
    RunConcat(p, [q], BodyText(body));
    RunBody(p.words, p.arg, body, single);
    RunConcat(p, [q] + BodyText(body), [q]);
    RunOne(Progress(p.words, st, p.arg + BodyValue(body)), q);
  }

  /** Reading a document yields its words. */
  lemma {:induction false} RunDocument(words: seq<Text>, state: State, arg: Text, doc: seq<Lexeme>)
    requires AllWellFormed(doc) && (state == Unq || (state == Outside && arg == []))
    ensures var r := Finish(Run(Progress(words, state, arg), Render(doc)));
      r == words + if state == Outside then Words(doc)
                   else if StartsInWord(doc) then [arg + Words(doc)[0]] + Words(doc)[1..]
                   else [arg] + Words(doc)
    ensures Run(Progress(words, state, arg), Render(doc)).state in {Outside, Unq}
    decreases |doc|
  {
    hide Run, Spelling, Value, WellFormed;
    var p := Progress(words, state, arg);
    if doc == [] {
      RunNone(p);
    } else {
      var x := doc[0];
      RunConcat(p, Spelling(x), Render(doc[1..]));
      if x.Gap? {
        GapStep(p, x);
        RunDocument(if state == Unq then words + [arg] else words, Outside, [], doc[1..]);
      } else {
        RunLexeme(words, state, arg, x);
        RunDocument(words, Unq, arg + Value(x), doc[1..]);
        WordsStep(arg, doc);
      }
    }
  }

  lemma WordsStep(arg: Text, doc: seq<Lexeme>)
    requires StartsInWord(doc)
    ensures var rest := doc[1..];
      var begun := arg + Value(doc[0]);
      [arg + Words(doc)[0]] + Words(doc)[1..] ==
        if StartsInWord(rest) then [begun + Words(rest)[0]] + Words(rest)[1..] else [begun] + Words(rest)
    ensures arg == [] ==> [arg + Words(doc)[0]] + Words(doc)[1..] == Words(doc)
  {
    hide Value;
    var rest := doc[1..];
    if StartsInWord(rest) {
      assert arg + (Value(doc[0]) + Words(rest)[0]) == arg + Value(doc[0]) + Words(rest)[0];
    }
    assert [] + Words(doc)[0] == Words(doc)[0];
  }

  lemma GapStep(p: Progress, x: Lexeme)
    requires WellFormed(x) && x.Gap? && (p.state == Unq || (p.state == Outside && p.arg == []))
    ensures Run(p, Spelling(x)) == Progress(if p.state == Unq then p.words + [p.arg] else p.words, Outside, [])
  {
    hide Run;
    RunOne(p, x.c);
  }

  /** Soundness: however a list of arguments is written in the grammar, tokenizing the
      text gives the list back. */
  lemma TokensOfDocument(doc: seq<Lexeme>)
    requires AllWellFormed(doc)
    ensures Tokens(Render(doc)) == Words(doc)
    ensures EndState(Render(doc)) in {Outside, Unq}
  {
    hide Run, WellFormed, Words, Render;
    RunDocument([], Outside, [], doc);
  }

  /** What has been read since the last complete lexeme. */
  function Pending(state: State, body: seq<Unit>): Text {
    match state
    case Outside | Unq => []
    case UnqEsc => [BACKSLASH]
    case Sq => [APOSTROPHE] + BodyText(body)
    case SqEsc => [APOSTROPHE] + BodyText(body) + [BACKSLASH]
    case Dq => [QUOTE] + BodyText(body)
    case DqEsc => [QUOTE] + BodyText(body) + [BACKSLASH]
  }

  predicate PendingFits(state: State, body: seq<Unit>) {
    && (state == Sq || state == SqEsc ==> forall i :: 0 <= i < |body| ==> UnitFits(body[i], APOSTROPHE))
    && (state == Dq || state == DqEsc ==> forall i :: 0 <= i < |body| ==> UnitFits(body[i], QUOTE))
  }

  lemma {:induction false} RenderAppend(doc: seq<Lexeme>, x: Lexeme)
    ensures Render(doc + [x]) == Render(doc) + Spelling(x)
  {
    hide Spelling;
    if doc == [] {
      assert ([x])[1..] == [];
    } else {
      assert (doc + [x])[1..] == doc[1..] + [x];
      RenderAppend(doc[1..], x);
    }
  }

  /** One more character either finishes a lexeme, or extends the pending part. */
  lemma ParseStep(doc: seq<Lexeme>, body: seq<Unit>, state: State, c: Byte)
      returns (doc': seq<Lexeme>, body': seq<Unit>)
    requires AllWellFormed(doc) && PendingFits(state, body)
    ensures AllWellFormed(doc') && PendingFits(Next(state, c), body')
    ensures Render(doc') + Pending(Next(state, c), body') == Render(doc) + Pending(state, body) + [c]
  {
    hide Render, BodyText, Spelling, Pending;
    doc', body' := doc, body;
    var done: seq<Lexeme> := [];
    match state {
      case Outside | Unq =>
        if IsSpace(c) { done := [Gap(c)]; } else if CharClassOf(c) == Other { done := [Plain(c)]; }
        body' := [];
        EmptyBody();
      case UnqEsc => done := [Escaped(c)];
      case Sq | Dq =>
        if Next(state, c) == Unq {
          done := [if state == Sq then Single(body) else Double(body)];
        } else if c != BACKSLASH {
          body' := body + [Raw(c)];
          BodyAppend(body, Raw(c));
        }
      case SqEsc | DqEsc =>
        body' := body + [Escaping(c)];
        BodyAppend(body, Escaping(c));
    }
    PendingStep(state, body, body', c, done);
    Append(doc, done, Pending(Next(state, c), body'), Pending(state, body), c);
    doc' := doc + done;
  }

  lemma Append(doc: seq<Lexeme>, done: seq<Lexeme>, after: Text, before: Text, c: Byte)
    requires |done| <= 1
    requires (if done == [] then [] else Spelling(done[0])) + after == before + [c]
    ensures Render(doc + done) + after == Render(doc) + before + [c]
  {
    hide Render, Spelling;
    if done == [] {
      assert doc + done == doc;
    } else {
      assert doc + done == doc + [done[0]];
      RenderAppend(doc, done[0]);
      assert Render(doc) + (Spelling(done[0]) + after) == Render(doc) + Spelling(done[0]) + after;
    }
    assert Render(doc) + (before + [c]) == Render(doc) + before + [c];
  }

  lemma EmptyBody()
    ensures BodyText([]) == []
  {}

  lemma BodyAppend(body: seq<Unit>, u: Unit)
    ensures BodyText(body + [u]) == BodyText(body) + UnitText(u)
  {
    assert (body + [u])[..|body|] == body;
  }

  lemma PendingStep(state: State, body: seq<Unit>, body': seq<Unit>, c: Byte, done: seq<Lexeme>)
    requires match state
      case Outside | Unq =>
        && BodyText(body') == []
        && done == if IsSpace(c) then [Gap(c)] else if CharClassOf(c) == Other then [Plain(c)] else []
      case UnqEsc => done == [Escaped(c)]
      case Sq | Dq =>
        if Next(state, c) == Unq then done == [if state == Sq then Single(body) else Double(body)]
        else done == [] && (if c == BACKSLASH then body' == body else BodyText(body') == BodyText(body) + [c])
      case SqEsc | DqEsc => done == [] && BodyText(body') == BodyText(body) + [BACKSLASH, c]
    ensures (if done == [] then [] else Spelling(done[0])) + Pending(Next(state, c), body')
         == Pending(state, body) + [c]
  {
    hide BodyText;
  }

  /** Every text is a document followed by what its end state leaves pending. */
  lemma {:induction false} Parse(s: Text) returns (doc: seq<Lexeme>, body: seq<Unit>)
    ensures AllWellFormed(doc) && PendingFits(EndState(s), body)
    ensures Render(doc) + Pending(EndState(s), body) == s
  {
    hide Run, Pending, PendingFits, AllWellFormed, Next;
    if s == [] {
      RunNone(START);
      doc, body := [], [];
      assert AllWellFormed(doc) && PendingFits(Outside, body) && Pending(Outside, body) == [] by { NothingPending(); }
    } else {
      var n := |s| - 1;
      assert s == s[..n] + [s[n]];
      RunConcat(START, s[..n], [s[n]]);
      RunOne(Run(START, s[..n]), s[n]);
      doc, body := Parse(s[..n]);
      doc, body := ParseStep(doc, body, EndState(s[..n]), s[n]);
    }
  }

  lemma NothingPending()
    ensures AllWellFormed([]) && PendingFits(Outside, []) && Pending(Outside, []) == []
  {}

  /** A text that ends inside quotes or after a dangling backslash, closed. */
  function Mend(s: Text): Text {
    match EndState(s)
    case Outside | Unq => s
    case Sq => s + [APOSTROPHE]
    case Dq => s + [QUOTE]
    case UnqEsc => (if s == [] then s else s[..|s| - 1]) + [APOSTROPHE, APOSTROPHE]
    case SqEsc => (if s == [] then s else s[..|s| - 1]) + [APOSTROPHE]
    case DqEsc => (if s == [] then s else s[..|s| - 1]) + [QUOTE]
  }

  /** A dangling backslash was the last character, and only changed the state. */
  lemma BeforeBackslash(s: Text)
    requires EndState(s) in {UnqEsc, SqEsc, DqEsc}
    ensures s != []
    ensures var p := Run(START, s[..|s| - 1]);
      && Run(START, s) == Progress(p.words, EndState(s), p.arg)
      && (EndState(s) == UnqEsc ==> p.state == Outside || p.state == Unq)
      && (EndState(s) == SqEsc ==> p.state == Sq)
      && (EndState(s) == DqEsc ==> p.state == Dq)
  {
    hide Run;
    if s == [] {
      RunNone(START);
    } else {
      var n := |s| - 1;
      assert s == s[..n] + [s[n]];
      RunConcat(START, s[..n], [s[n]]);
      RunOne(Run(START, s[..n]), s[n]);
    }
  }

  /** Closing a malformed text changes none of its arguments. */
  lemma MendKeepsTokens(s: Text)
    ensures Tokens(Mend(s)) == Tokens(s)
    ensures EndState(Mend(s)) in {Outside, Unq}
  {
    hide Run;
    var p := Run(START, s);
    if p.state == Sq || p.state == Dq {
      var quote := if p.state == Sq then APOSTROPHE else QUOTE;
      RunConcat(START, s, [quote]);
      RunOne(p, quote);
    } else if p.state != Outside && p.state != Unq {
      BeforeBackslash(s);
      var t := s[..|s| - 1];
      var q := Run(START, t);
      var quote := if p.state == DqEsc then QUOTE else APOSTROPHE;
      RunOne(q, quote);
      RunConcat(START, t, [quote]);
      if p.state == UnqEsc {
        RunConcat(START, t + [quote], [quote]);
        RunOne(Feed(q, quote), quote);
        assert t + [quote] + [quote] == t + [quote, quote];
      }
    }
  }

  /** Completeness: the arguments of any text are those some document of the grammar
      spells; where the text is malformed, those of the text once closed. */
  lemma TokensAreGrammatical(s: Text) returns (doc: seq<Lexeme>)
    ensures AllWellFormed(doc) && Render(doc) == Mend(s) && Words(doc) == Tokens(s)
  {
    hide Run, Render, Words, AllWellFormed;
    MendKeepsTokens(s);
    var body;
    doc, body := Parse(Mend(s));
    TokensOfDocument(doc);
  }

  // ------------------------------------------------------ quoting arguments

  function QuoteBody(arg: Text): (r: seq<Unit>)
    ensures forall i :: 0 <= i < |r| ==> UnitFits(r[i], QUOTE)
  {
    if arg == [] then []
    else
      var c := arg[|arg| - 1];
      QuoteBody(arg[..|arg| - 1]) + [if c == QUOTE || c == BACKSLASH then Escaping(c) else Raw(c)]
  }

  /** The argument between double quotes, with a backslash before each double quote
      and each backslash. */
  function Quoted(arg: Text): Text { [QUOTE] + BodyText(QuoteBody(arg)) + [QUOTE] }

  /** Quoted arguments joined by single blanks. */
  function QuotedLine(args: seq<Text>): Text {
    if args == [] then []
    else if |args| == 1 then Quoted(args[0])
    else Quoted(args[0]) + [BLANK] + QuotedLine(args[1..])
  }

  lemma {:induction false} QuoteBodyValue(arg: Text)
    ensures BodyValue(QuoteBody(arg)) == arg
  {
    if arg != [] { QuoteBodyValue(arg[..|arg| - 1]); }
  }

  lemma QuotedAlone(arg: Text)
    ensures Tokens(Quoted(arg)) == [arg] && EndState(Quoted(arg)) == Unq
  {
    hide Run, BodyText, BodyValue, QuoteBody;
    QuoteBodyValue(arg);
    RunQuoted(START, QuoteBody(arg), false);
    assert START.arg + arg == arg;
  }

  /** Tokenizing undoes quoting, for every list of arguments, empty ones included. */
  lemma {:induction false} QuotingRoundTrip(args: seq<Text>)
    ensures Tokens(QuotedLine(args)) == args
    decreases |args|
  {
    hide Tokens, EndState, Quoted;
    if args == [] {
      assert Tokens([]) == [] by { NoTokens(); }
    } else {
      QuotedAlone(args[0]);
      if |args| > 1 {
        TokensOfJoin(Quoted(args[0]), BLANK, QuotedLine(args[1..]));
        QuotingRoundTrip(args[1..]);
      }
    }
  }

  lemma NoTokens()
    ensures Tokens([]) == []
  {
    RunNone(START);
  }

  // ------------------------------------------------------ byte by byte

  /** Characters as themselves between quotes. */
  function AsRaw(w: Text): (r: seq<Unit>)
    ensures |r| == |w| && forall i :: 0 <= i < |w| ==> r[i] == Raw(w[i])
  {
    seq(|w|, i requires 0 <= i < |w| => Raw(w[i]))
  }

  lemma {:induction false} RawBody(w: Text)
    ensures BodyText(AsRaw(w)) == w && BodyValue(AsRaw(w)) == w
  {
    if w != [] {
      RawBody(w[..|w| - 1]);
      assert AsRaw(w)[..|w| - 1] == AsRaw(w[..|w| - 1]);
    }
  }

  /** Anything free of backslashes and of the quote itself stands for itself between
      single quotes (39) or double quotes (34). */
  lemma QuotesAreLiteral(w: Text)
    ensures 92 !in w && 39 !in w ==> Tokens([39] + w + [39]) == [w]
    ensures 92 !in w && 34 !in w ==> Tokens([34] + w + [34]) == [w]
  {
    hide Run, BodyText, BodyValue, AsRaw;
    RawBody(w);
    assert START.arg + w == w;
    if 92 !in w && 39 !in w { RunQuoted(START, AsRaw(w), true); }
    if 92 !in w && 34 !in w { RunQuoted(START, AsRaw(w), false); }
  }

  /** A backslash (92) keeps any byte, outside quotes and inside either kind. */
  lemma BackslashKeeps(c: Byte)
    ensures Tokens([92, c]) == [[c]]
    ensures Tokens([39, 92, c]) == [[c]] && Tokens([34, 92, c]) == [[c]]
  {
    hide Run;
    assert START.arg + [c] == [c] && START.words + [[c]] == [[c]];
    RunTwo(START, 92, c);
    RunThree(START, 39, 92, c);
    RunThree(START, 34, 92, c);
  }

  /** Every byte but the two quotes, the backslash and the six separators is an argument
      by itself; a lone quote or backslash is an empty one, and a separator is none. */
  lemma SingleBytes(c: Byte)
    ensures Tokens([c]) == if c == 32 || 9 <= c <= 13 then [] else if c == 34 || c == 39 || c == 92 then [[]] else [[c]]
  {
    hide Run;
    assert START.arg + [c] == [c] && START.words + [[c]] == [[c]] && START.words + [[]] == [[]];
    RunOne(START, c);
  }
}
