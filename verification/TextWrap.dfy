/** Warnings broken across terminal-width lines, with every command kept whole. */
module TextWrap {
  import opened Common

  const WIDTH: nat := 78

  /** What `atoms` holds between two characters: the pieces cut, the one being read, and its quoting. */
  datatype Splitter = Splitter(done: seq<string>, current: string, quoted: bool)

  const START := Splitter([], "", false)

  function Feed(s: Splitter, c: char): Splitter {
    var quoted := if c == '`' then !s.quoted else s.quoted;
    if IsWhitespace(c) && !quoted then
      Splitter(if s.current != "" then s.done + [s.current] else s.done, "", quoted)
    else
      Splitter(s.done, s.current + [c], quoted)
  }

  function Read(s: Splitter, text: string): Splitter
    decreases |text|
  {
    if text == "" then s else Feed(Read(s, text[..|text| - 1]), text[|text| - 1])
  }

  function Finish(s: Splitter): seq<string> {
    if s.current != "" then s.done + [s.current] else s.done
  }

  function Atoms(text: string): seq<string> {
    Finish(Read(START, text))
  }

  /** The lines closed so far and the one being filled. */
  datatype Page = Page(lines: seq<string>, line: string)

  function Place(page: Page, word: string, indent: string): Page {
    if page.line == "" || page.line == indent then Page(page.lines, page.line + word)
    else if |page.line| + 1 + |word| > WIDTH then Page(page.lines + [page.line], indent + word)
    else Page(page.lines, page.line + " " + word)
  }

  function PlaceAll(words: seq<string>, indent: string): Page
    decreases |words|
  {
    if words == [] then Page([], "")
    else Place(PlaceAll(words[..|words| - 1], indent), words[|words| - 1], indent)
  }

  function Trim(s: string): string {
    TrimEnd(TrimStart(s))
  }

  function Wrapped(body: string, indent: string): seq<string> {
    var page := PlaceAll(Atoms(body), indent);
    if Trim(page.line) != "" then page.lines + [page.line] else page.lines
  }

  // ---------------------------------------------------------------------------
  // The loops.

  method SplitAtoms(body: string) returns (atoms: seq<string>)
    ensures atoms == Atoms(body)
  {
    atoms := [];
    var current, quoted := "", false;
    var i := 0;
    while i < |body|
      invariant 0 <= i <= |body|
      invariant Splitter(atoms, current, quoted) == Read(START, body[..i])
    {
      assert body[..i + 1][..i] == body[..i];
      var character := body[i];
      i := i + 1;
      if character == '`' {
        quoted := !quoted;
      }
      if IsWhitespace(character) && !quoted {
        if current != "" {
          atoms := atoms + [current];
          current := "";
        }
        continue;
      }
      current := current + [character];
    }
    assert body[..|body|] == body;
    if current != "" {
      atoms := atoms + [current];
    }
  }

  method Wrap(body: string, indent: string) returns (lines: seq<string>)
    ensures lines == Wrapped(body, indent)
  {
    lines := [];
    var line := "";
    var words := SplitAtoms(body);
    for i := 0 to |words|
      invariant Page(lines, line) == PlaceAll(words[..i], indent)
    {
      assert words[..i + 1][..i] == words[..i];
      var startOfLine := line == "" || line == indent;
      if !startOfLine && |line| + 1 + |words[i]| > WIDTH {
        lines := lines + [line];
        line := indent;
      } else if !startOfLine {
        line := line + " ";
      }
      line := line + words[i];
    }
    assert words[..|words|] == words;
    if Trim(line) != "" {
      lines := lines + [line];
    }
  }

  // ---------------------------------------------------------------------------
  // Reading in two parts.

  predicate Blank(s: string) {
    forall c :: c in s ==> IsWhitespace(c)
  }

  lemma {:induction false} ReadInTwoParts(s: Splitter, a: string, b: string)
    ensures Read(s, a + b) == Read(Read(s, a), b)
    decreases |b|
  {
    if b == "" {
      assert a + b == a;
    } else {
      var front := b[..|b| - 1];
      assert (a + b)[..|a + b| - 1] == a + front;
      ReadInTwoParts(s, a, front);
    }
  }

  /** What was cut before does not matter to what comes. */
  lemma {:induction false} EarlierAtomsStay(done: seq<string>, s: Splitter, text: string)
    ensures Read(Splitter(done + s.done, s.current, s.quoted), text)
         == (var r := Read(s, text); Splitter(done + r.done, r.current, r.quoted))
    decreases |text|
  {
    if text != "" {
      EarlierAtomsStay(done, s, text[..|text| - 1]);
      var r := Read(s, text[..|text| - 1]);
      assert done + (r.done + [r.current]) == (done + r.done) + [r.current];
    }
  }

  lemma {:induction false} BlankReadsNothing(s: Splitter, text: string)
    requires Blank(text) && s.current == "" && !s.quoted
    ensures Read(s, text) == s
    decreases |text|
  {
    if text != "" {
      BlankReadsNothing(s, text[..|text| - 1]);
      assert text[|text| - 1] in text;
    }
  }

  // ---------------------------------------------------------------------------
  // An atom, read on its own, is one atom.

  predicate Whole(w: string) {
    w != "" && Read(START, w).done == [] && Read(START, w).current == w
  }

  predicate Quoted(w: string) {
    Read(START, w).quoted
  }

  /** Only the last of the words can end inside a quote. */
  predicate Words(words: seq<string>) {
    && (forall i :: 0 <= i < |words| ==> Whole(words[i]))
    && (forall i :: 0 <= i < |words| - 1 ==> !Quoted(words[i]))
  }

  predicate CutsWords(s: Splitter) {
    && (forall i :: 0 <= i < |s.done| ==> Whole(s.done[i]) && !Quoted(s.done[i]))
    && Read(START, s.current) == Splitter([], s.current, s.quoted)
  }

  lemma FeedCutsWords(s: Splitter, c: char)
    requires CutsWords(s)
    ensures CutsWords(Feed(s, c))
  {
    assert (s.current + [c])[..|s.current|] == s.current;
  }

  lemma {:induction false} ReadingCutsWords(text: string)
    ensures CutsWords(Read(START, text))
    decreases |text|
  {
    if text != "" {
      ReadingCutsWords(text[..|text| - 1]);
      FeedCutsWords(Read(START, text[..|text| - 1]), text[|text| - 1]);
    }
  }

  /** Splitting an atom again gives back that atom. */
  lemma AtomsAreWords(text: string)
    ensures Words(Atoms(text))
    ensures forall i :: 0 <= i < |Atoms(text)| ==> Atoms(Atoms(text)[i]) == [Atoms(text)[i]]
  {
    ReadingCutsWords(text);
  }

  // ---------------------------------------------------------------------------
  // Lines.

  function Spaced(words: seq<string>): string
    decreases |words|
  {
    if words == [] then ""
    else if |words| == 1 then words[0]
    else Spaced(words[..|words| - 1]) + " " + words[|words| - 1]
  }

  function JoinLines(lines: seq<string>): string
    decreases |lines|
  {
    if lines == [] then ""
    else if |lines| == 1 then lines[0]
    else JoinLines(lines[..|lines| - 1]) + "\n" + lines[|lines| - 1]
  }

  function AtomsOfLines(lines: seq<string>): seq<string>
    decreases |lines|
  {
    if lines == [] then [] else AtomsOfLines(lines[..|lines| - 1]) + Atoms(lines[|lines| - 1])
  }

  /** A line that ends outside a quote, right after an atom. */
  predicate Closed(line: string) {
    Read(START, line).current != "" && !Quoted(line)
  }

  predicate Shaped(line: string, start: string) {
    && line == start + Spaced(Atoms(line))
    && (|line| <= WIDTH || |Atoms(line)| == 1)
  }

  function StartOf(k: nat, indent: string): string {
    if k == 0 then "" else indent
  }

  /** `next` would not have fitted after `line`. */
  predicate Full(line: string, next: string) {
    Atoms(next) != [] && |line| + 1 + |Atoms(next)[0]| > WIDTH
  }

  predicate ClosedLine(page: Page, k: nat, indent: string)
    requires k < |page.lines|
  {
    && Closed(page.lines[k])
    && Shaped(page.lines[k], StartOf(k, indent))
    && Full(page.lines[k], if k + 1 < |page.lines| then page.lines[k + 1] else page.line)
  }

  predicate Filled(page: Page, indent: string) {
    && (forall k :: 0 <= k < |page.lines| ==> ClosedLine(page, k, indent))
    && Shaped(page.line, StartOf(|page.lines|, indent))
    && Read(START, page.line).current != ""
  }

  lemma WordAfterBreak(done: seq<string>, w: string)
    requires Whole(w)
    ensures Read(Splitter(done, "", false), w) == Splitter(done, w, Quoted(w))
  {
    EarlierAtomsStay(done, START, w);
    assert done + [] == done;
  }

  lemma FirstOnLine(start: string, w: string)
    requires Blank(start) && Whole(w)
    ensures Read(START, start + w) == Splitter([], w, Quoted(w))
    ensures Atoms(start + w) == [w]
    ensures Shaped(start + w, start)
  {
    ReadInTwoParts(START, start, w);
    BlankReadsNothing(START, start);
    WordAfterBreak([], w);
  }

  lemma BreakEndsTheAtom(text: string, c: char)
    requires Closed(text) && IsWhitespace(c) && c != '`'
    ensures Read(START, text + [c]) == Splitter(Atoms(text), "", false)
  {
    assert (text + [c])[..|text|] == text;
  }

  lemma SpacedAppends(words: seq<string>, w: string)
    requires words != []
    ensures Spaced(words + [w]) == Spaced(words) + " " + w
  {
    var all := words + [w];
    assert all[..|all| - 1] == words;
  }

  lemma NextAtom(line: string, w: string)
    requires Closed(line) && Whole(w)
    ensures Read(START, line + " " + w) == Splitter(Atoms(line), w, Quoted(w))
    ensures Atoms(line + " " + w) == Atoms(line) + [w]
  {
    ReadInTwoParts(START, line + " ", w);
    BreakEndsTheAtom(line, ' ');
    WordAfterBreak(Atoms(line), w);
  }

  lemma NextOnLine(line: string, w: string, start: string)
    requires Closed(line) && Whole(w) && Shaped(line, start)
    requires |line| + 1 + |w| <= WIDTH
    ensures Shaped(line + " " + w, start)
  {
    NextAtom(line, w);
    SpacedAppends(Atoms(line), w);
    var atoms := Atoms(line);
    calc {
      line + " " + w;
      (start + Spaced(atoms)) + " " + w;
      start + (Spaced(atoms) + " " + w);
      start + Spaced(atoms + [w]);
    }
  }

  lemma AnAtomShows(line: string, indent: string)
    requires Read(START, line).current != "" && Blank(indent)
    ensures line != "" && line != indent
    ensures Trim(line) != ""
  {
    if Blank(line) {
      BlankReadsNothing(START, line);
      assert false;
    }
    var c :| c in line && !IsWhitespace(c);
    TrimStartKeeps(line, c);
    TrimEndKeeps(TrimStart(line), c);
  }

  lemma {:induction false} TrimStartKeeps(s: string, c: char)
    requires c in s && !IsWhitespace(c)
    ensures c in TrimStart(s)
  {
    if IsWhitespace(s[0]) {
      TrimStartKeeps(s[1..], c);
    }
  }

  lemma {:induction false} TrimEndKeeps(s: string, c: char)
    requires c in s && !IsWhitespace(c)
    ensures c in TrimEnd(s)
  {
    if IsWhitespace(s[|s| - 1]) {
      TrimEndKeeps(s[..|s| - 1], c);
    }
  }

  lemma EarlierLinesStay(page: Page, next: Page, indent: string)
    requires Filled(page, indent) && next.lines == page.lines + [page.line]
    ensures forall k :: 0 <= k < |page.lines| ==> ClosedLine(next, k, indent)
  {
    forall k | 0 <= k < |page.lines| ensures ClosedLine(next, k, indent) {
      assert ClosedLine(page, k, indent);
    }
  }

  lemma BreakKeepsFilled(page: Page, w: string, indent: string)
    requires Blank(indent) && Filled(page, indent) && !Quoted(page.line) && Whole(w)
    requires |page.line| + 1 + |w| > WIDTH
    ensures Filled(Page(page.lines + [page.line], indent + w), indent)
    ensures Quoted(indent + w) == Quoted(w) && Atoms(indent + w) == [w]
  {
    FirstOnLine(indent, w);
    var next := Page(page.lines + [page.line], indent + w);
    EarlierLinesStay(page, next, indent);
    assert Full(page.line, next.line);
    assert ClosedLine(next, |page.lines|, indent);
  }

  /** A line that goes on begins with the same atom, so the line before it stays full. */
  lemma StaysFull(line: string, next: string, longer: string)
    requires Full(line, next) && |Atoms(longer)| > 0 && Atoms(longer)[0] == Atoms(next)[0]
    ensures Full(line, longer)
  {
  }

  lemma NextKeepsFilled(page: Page, w: string, indent: string)
    requires Filled(page, indent) && !Quoted(page.line) && Whole(w)
    requires |page.line| + 1 + |w| <= WIDTH
    ensures Filled(Page(page.lines, page.line + " " + w), indent)
    ensures Quoted(page.line + " " + w) == Quoted(w)
    ensures Atoms(page.line + " " + w) == Atoms(page.line) + [w]
  {
    NextAtom(page.line, w);
    NextOnLine(page.line, w, StartOf(|page.lines|, indent));
    var next := Page(page.lines, page.line + " " + w);
    forall k | 0 <= k < |next.lines| ensures ClosedLine(next, k, indent) {
      assert ClosedLine(page, k, indent);
      if k + 1 == |page.lines| {
        StaysFull(page.lines[k], page.line, next.line);
      }
    }
  }

  lemma AtomsOfOneMore(lines: seq<string>, line: string)
    ensures AtomsOfLines(lines + [line]) == AtomsOfLines(lines) + Atoms(line)
  {
    assert (lines + [line])[..|lines|] == lines;
  }

  lemma PlaceKeepsFilled(page: Page, w: string, indent: string)
    requires Blank(indent) && Filled(page, indent) && !Quoted(page.line) && Whole(w)
    ensures
      var next := Place(page, w, indent);
      && Filled(next, indent)
      && Quoted(next.line) == Quoted(w)
      && AtomsOfLines(next.lines) + Atoms(next.line) == AtomsOfLines(page.lines) + Atoms(page.line) + [w]
  {
    AnAtomShows(page.line, indent);
    var next := Place(page, w, indent);
    if |page.line| + 1 + |w| > WIDTH {
      assert next == Page(page.lines + [page.line], indent + w);
      BreakKeepsFilled(page, w, indent);
      AtomsOfOneMore(page.lines, page.line);
    } else {
      assert next == Page(page.lines, page.line + " " + w);
      NextKeepsFilled(page, w, indent);
      Regroup(AtomsOfLines(page.lines), Atoms(page.line), [w]);
    }
  }

  lemma FirstWordFills(w: string, indent: string)
    requires Whole(w)
    ensures Filled(Page([], w), indent) && Atoms(w) == [w]
    ensures Place(Page([], ""), w, indent) == Page([], w)
  {
    FirstOnLine("", w);
    assert "" + w == w;
  }

  lemma {:induction false} PlacingFills(words: seq<string>, indent: string)
    requires Blank(indent) && Words(words) && words != []
    ensures
      var page := PlaceAll(words, indent);
      && Filled(page, indent)
      && Quoted(page.line) == Quoted(words[|words| - 1])
      && AtomsOfLines(page.lines) + Atoms(page.line) == words
    decreases |words|
  {
    var w := words[|words| - 1];
    var front := words[..|words| - 1];
    assert words == front + [w];
    if front == [] {
      FirstWordFills(w, indent);
    } else {
      PlacingFills(front, indent);
      PlaceKeepsFilled(PlaceAll(front, indent), w, indent);
      assert PlaceAll(words, indent) == Place(PlaceAll(front, indent), w, indent);
    }
  }

  lemma WrappedIsThePage(body: string, indent: string)
    requires Blank(indent)
    ensures Atoms(body) == [] ==> Wrapped(body, indent) == []
    ensures Atoms(body) != [] ==>
      var page := PlaceAll(Atoms(body), indent);
      && Wrapped(body, indent) == page.lines + [page.line]
      && Filled(page, indent)
      && AtomsOfLines(page.lines) + Atoms(page.line) == Atoms(body)
  {
    if Atoms(body) != [] {
      AtomsAreWords(body);
      PlacingFills(Atoms(body), indent);
      AnAtomShows(PlaceAll(Atoms(body), indent).line, indent);
    }
  }

  // ---------------------------------------------------------------------------
  // What wrapping keeps.

  /** Each line splits into whole atoms of the body, in order: no atom is broken between lines. */
  lemma NoAtomIsBroken(body: string, indent: string)
    requires Blank(indent)
    ensures AtomsOfLines(Wrapped(body, indent)) == Atoms(body)
  {
    WrappedIsThePage(body, indent);
    if Atoms(body) != [] {
      var page := PlaceAll(Atoms(body), indent);
      assert (page.lines + [page.line])[..|page.lines|] == page.lines;
    }
  }

  lemma {:induction false} ClosedLinesJoin(lines: seq<string>)
    requires lines != [] && forall k :: 0 <= k < |lines| ==> Closed(lines[k])
    ensures Closed(JoinLines(lines)) && Atoms(JoinLines(lines)) == AtomsOfLines(lines)
    decreases |lines|
  {
    var last := lines[|lines| - 1];
    var front := lines[..|lines| - 1];
    if front == [] {
      assert [] + Atoms(last) == Atoms(last);
    } else {
      ClosedLinesJoin(front);
      LastLineJoins(front, last);
    }
  }

  lemma LastLineJoins(front: seq<string>, last: string)
    requires front != []
    requires Closed(JoinLines(front)) && Atoms(JoinLines(front)) == AtomsOfLines(front)
    requires Read(START, last).current != ""
    ensures Atoms(JoinLines(front) + "\n" + last) == AtomsOfLines(front) + Atoms(last)
    ensures Read(START, JoinLines(front) + "\n" + last).current != ""
    ensures Quoted(JoinLines(front) + "\n" + last) == Quoted(last)
  {
    var text := JoinLines(front);
    ReadInTwoParts(START, text + "\n", last);
    BreakEndsTheAtom(text, '\n');
    EarlierAtomsStay(Atoms(text), START, last);
    assert Atoms(text) + [] == Atoms(text);
  }

  /** Splitting the wrapped text again gives exactly the atoms of the body. */
  lemma WrappingLosesNothing(body: string, indent: string)
    requires Blank(indent)
    ensures Atoms(JoinLines(Wrapped(body, indent))) == Atoms(body)
  {
    WrappedIsThePage(body, indent);
    if Atoms(body) != [] {
      var page := PlaceAll(Atoms(body), indent);
      var lines := page.lines + [page.line];
      assert lines[..|page.lines|] == page.lines;
      if page.lines != [] {
        forall k | 0 <= k < |page.lines| ensures Closed(page.lines[k]) {
          assert ClosedLine(page, k, indent);
        }
        ClosedLinesJoin(page.lines);
        LastLineJoins(page.lines, page.line);
      }
    }
  }

  lemma WrappingTwice(body: string, indent: string)
    requires Blank(indent)
    ensures Wrapped(JoinLines(Wrapped(body, indent)), indent) == Wrapped(body, indent)
  {
    WrappingLosesNothing(body, indent);
  }

  /** Every line is its start and its atoms one space apart, and is too wide only for a single atom. */
  lemma LinesAreShaped(body: string, indent: string, k: nat)
    requires Blank(indent) && k < |Wrapped(body, indent)|
    ensures
      var line := Wrapped(body, indent)[k];
      && Atoms(line) != []
      && line == StartOf(k, indent) + Spaced(Atoms(line))
      && (|line| <= WIDTH || |Atoms(line)| == 1)
  {
    WrappedIsThePage(body, indent);
    var page := PlaceAll(Atoms(body), indent);
    assert k < |page.lines| ==> ClosedLine(page, k, indent);
  }

  /** A line is broken only where the next atom would not have fitted. */
  lemma LinesAreFilled(body: string, indent: string, k: nat)
    requires Blank(indent) && k + 1 < |Wrapped(body, indent)|
    ensures
      var lines := Wrapped(body, indent);
      Atoms(lines[k + 1]) != [] && |lines[k]| + 1 + |Atoms(lines[k + 1])[0]| > WIDTH
  {
    WrappedIsThePage(body, indent);
    assert ClosedLine(PlaceAll(Atoms(body), indent), k, indent);
  }

  // ---------------------------------------------------------------------------
  // A command between backticks is never broken.

  ghost predicate Holds(text: string, part: string) {
    exists i: nat :: StandsAt(text, part, i)
  }

  predicate StandsAt(text: string, part: string, i: nat) {
    i + |part| <= |text| && text[i..i + |part|] == part
  }

  lemma HoldsAt(text: string, before: string, part: string, after: string)
    requires text == before + part + after
    ensures Holds(text, part)
  {
    assert StandsAt(text, part, |before|);
  }

  lemma HoldsThrough(text: string, middle: string, part: string)
    requires Holds(text, middle) && Holds(middle, part)
    ensures Holds(text, part)
  {
    var i: nat :| StandsAt(text, middle, i);
    var j: nat :| StandsAt(middle, part, j);
    forall x | 0 <= x < |part| ensures text[i + j + x] == part[x] {
      assert text[i + j + x] == middle[j + x];
    }
    assert StandsAt(text, part, i + j);
  }

  ghost predicate Shows(s: Splitter, part: string) {
    Holds(s.current, part) || exists i :: 0 <= i < |s.done| && Holds(s.done[i], part)
  }

  lemma {:induction false} ShownStaysShown(s: Splitter, text: string, part: string)
    requires Shows(s, part) && part != ""
    ensures Shows(Read(s, text), part)
    decreases |text|
  {
    if text != "" {
      var r := Read(s, text[..|text| - 1]);
      ShownStaysShown(s, text[..|text| - 1], part);
      var next := Feed(r, text[|text| - 1]);
      if Holds(r.current, part) {
        if next.current != "" {
          HoldsAt(next.current, "", r.current, next.current[|r.current|..]);
          HoldsThrough(next.current, r.current, part);
        } else {
          assert next.done[|r.done|] == r.current;
        }
      } else {
        var i :| 0 <= i < |r.done| && Holds(r.done[i], part);
        assert next.done[i] == r.done[i];
      }
    }
  }

  lemma {:induction false} QuotedTextIsKept(s: Splitter, text: string)
    requires s.quoted && '`' !in text
    ensures Read(s, text) == Splitter(s.done, s.current + text, true)
    decreases |text|
  {
    if text == "" {
      assert s.current + text == s.current;
    } else {
      var front := text[..|text| - 1];
      QuotedTextIsKept(s, front);
      assert text[|text| - 1] in text;
      assert s.current + text == (s.current + front) + [text[|text| - 1]];
    }
  }

  /** A command as the warning spells it. */
  function Command(span: string): (command: string)
    ensures command != ""
  {
    "`" + span + "`"
  }

  lemma OneCharacterIsFed(s: Splitter, c: char)
    ensures Read(s, [c]) == Feed(s, c)
  {
    assert [c][..0] == "";
    assert Read(s, [c][..0]) == s;
  }

  /** A command read outside a quote is taken in whole. */
  lemma CommandIsRead(s: Splitter, span: string)
    requires !s.quoted && '`' !in span
    ensures Read(s, Command(span)) == Splitter(s.done, s.current + Command(span), false)
  {
    OneCharacterIsFed(s, '`');
    ReadInTwoParts(s, "`", span);
    QuotedTextIsKept(Feed(s, '`'), span);
    var inside := Read(s, "`" + span);
    ReadInTwoParts(s, "`" + span, "`");
    OneCharacterIsFed(inside, '`');
    SpanRegrouped(s.current, "`", span, "`");
  }

  lemma SpanRegrouped(current: string, opening: string, span: string, closing: string)
    ensures current + opening + span + closing == current + (opening + span + closing)
  {
  }

  lemma ShownIsInAnAtom(s: Splitter, part: string)
    requires Shows(s, part) && part != ""
    ensures exists i :: 0 <= i < |Finish(s)| && Holds(Finish(s)[i], part)
  {
    if Holds(s.current, part) {
      assert Finish(s)[|s.done|] == s.current;
    } else {
      var i :| 0 <= i < |s.done| && Holds(s.done[i], part);
      assert Finish(s)[i] == s.done[i];
    }
  }

  lemma SpanIsInOneAtom(before: string, span: string, after: string)
    requires !Quoted(before) && '`' !in span
    ensures
      var atoms := Atoms(before + Command(span) + after);
      exists i :: 0 <= i < |atoms| && Holds(atoms[i], Command(span))
  {
    ReadInTwoParts(START, before, Command(span));
    CommandIsRead(Read(START, before), span);
    CommandStaysShown(Read(START, before), Command(span), after);
    ReadInTwoParts(START, before + Command(span), after);
    var body := before + Command(span) + after;
    ShownIsInAnAtom(Read(START, body), Command(span));
    assert Atoms(body) == Finish(Read(START, body));
  }

  lemma CommandStaysShown(s: Splitter, command: string, after: string)
    requires command != ""
    ensures Shows(Read(Splitter(s.done, s.current + command, false), after), command)
  {
    HoldsAtTheEnd(s.current, command);
    ShownStaysShown(Splitter(s.done, s.current + command, false), after, command);
  }

  lemma HoldsAtTheEnd(before: string, part: string)
    ensures Holds(before + part, part)
  {
    HoldsAt(before + part, before, part, "");
  }

  lemma {:induction false} SpacedHoldsEach(words: seq<string>, i: nat)
    requires i < |words|
    ensures Holds(Spaced(words), words[i])
    decreases |words|
  {
    var last := words[|words| - 1];
    if |words| == 1 {
      HoldsAt(words[0], "", words[0], "");
    } else if i == |words| - 1 {
      HoldsAt(Spaced(words), Spaced(words[..|words| - 1]) + " ", last, "");
    } else {
      var front := words[..|words| - 1];
      SpacedHoldsEach(front, i);
      assert Spaced(words) == "" + Spaced(front) + (" " + last);
      HoldsAt(Spaced(words), "", Spaced(front), " " + last);
      HoldsThrough(Spaced(words), Spaced(front), words[i]);
    }
  }

  lemma {:induction false} LineOfAtom(lines: seq<string>, i: nat)
    requires i < |AtomsOfLines(lines)|
    ensures exists k :: 0 <= k < |lines| && AtomsOfLines(lines)[i] in Atoms(lines[k])
    decreases |lines|
  {
    var front := lines[..|lines| - 1];
    if i < |AtomsOfLines(front)| {
      LineOfAtom(front, i);
      var k :| 0 <= k < |front| && AtomsOfLines(front)[i] in Atoms(front[k]);
      assert front[k] == lines[k];
    }
  }

  /** An atom stands whole on a line that has it. */
  lemma AtomStandsOnItsLine(line: string, start: string, atom: string)
    requires line == start + Spaced(Atoms(line)) && atom in Atoms(line)
    ensures Holds(line, atom)
  {
    var j :| 0 <= j < |Atoms(line)| && Atoms(line)[j] == atom;
    SpacedHoldsEach(Atoms(line), j);
    HoldsAtTheEnd(start, Spaced(Atoms(line)));
    HoldsThrough(line, Spaced(Atoms(line)), atom);
  }

  lemma AtomStandsOnSomeLine(body: string, indent: string, i: nat)
    requires Blank(indent) && i < |Atoms(body)|
    ensures exists k :: 0 <= k < |Wrapped(body, indent)| && Holds(Wrapped(body, indent)[k], Atoms(body)[i])
  {
    var lines := Wrapped(body, indent);
    NoAtomIsBroken(body, indent);
    LineOfAtom(lines, i);
    var k :| 0 <= k < |lines| && Atoms(body)[i] in Atoms(lines[k]);
    LinesAreShaped(body, indent, k);
    AtomStandsOnItsLine(lines[k], StartOf(k, indent), Atoms(body)[i]);
  }

  /** A backticked span of the body stands whole on one of the lines. */
  lemma SpanStaysOnOneLine(before: string, span: string, after: string, indent: string)
    requires Blank(indent) && !Quoted(before) && '`' !in span
    ensures
      var lines := Wrapped(before + Command(span) + after, indent);
      exists k :: 0 <= k < |lines| && Holds(lines[k], Command(span))
  {
    var body := before + Command(span) + after;
    SpanIsInOneAtom(before, span, after);
    var i :| 0 <= i < |Atoms(body)| && Holds(Atoms(body)[i], Command(span));
    AtomStandsOnSomeLine(body, indent, i);
    var k :| 0 <= k < |Wrapped(body, indent)| && Holds(Wrapped(body, indent)[k], Atoms(body)[i]);
    HoldsThrough(Wrapped(body, indent)[k], Atoms(body)[i], Command(span));
  }
}
