/** parse_command_heap and get_arg_heap of kernel-rs/src/bash.rs: a quote-aware scanner that writes
    NUL-terminated arguments into one buffer, and the accessor that finds the n-th of them. */
module Tokenizer {
  import opened Bytes

  const MAX_ARGS: nat := 32

  predicate IsBlank(ch: byte) {
    ch == 32 || ch == 9
  }

  predicate IsQuote(ch: byte) {
    ch == 34 || ch == 39
  }

  // ----- the pure tokenizer -----

  /** The arguments ended so far, the one being read, and the open quote (0 when there is none). */
  datatype Scan = Scan(done: seq<seq<byte>>, cur: seq<byte>, quote: byte)

  const START := Scan([], [], 0)

  /** The arguments if the line ended here; empty ones are dropped. */
  function Flush(s: Scan): seq<seq<byte>> {
    if s.cur == [] then s.done else s.done + [s.cur]
  }

  /** Blanks end an argument outside quotes. A quote character is never part of one: it opens, closes
      when it is the one that opened, and is ignored otherwise. */
  function Step(s: Scan, ch: byte): Scan {
    if s.quote == 0 && IsBlank(ch) then Scan(Flush(s), [], 0)
    else if IsQuote(ch) then s.(quote := if s.quote == 0 then ch else if s.quote == ch then 0 else s.quote)
    else s.(cur := s.cur + [ch])
  }

  function ScanFrom(s: Scan, line: seq<byte>): Scan {
    if line == [] then s else Step(ScanFrom(s, line[..|line| - 1]), line[|line| - 1])
  }

  function Tokens(line: seq<byte>): seq<seq<byte>> {
    Flush(ScanFrom(START, line))
  }

  lemma {:induction false} ScanAppend(s: Scan, a: seq<byte>, b: seq<byte>)
    ensures ScanFrom(s, a + b) == ScanFrom(ScanFrom(s, a), b)
    decreases b
  {
    if b == [] {
      assert a + b == a;
    } else {
      var n := |b| - 1;
      assert (a + b)[..|a + b| - 1] == a + b[..n];
      ScanAppend(s, a, b[..n]);
    }
  }

  /** Reading on never changes the arguments already ended. */
  lemma {:induction false} DoneStays(s: Scan, line: seq<byte>)
    ensures s.done <= ScanFrom(s, line).done
  {
    if line != [] {
      DoneStays(s, line[..|line| - 1]);
    }
  }

  lemma {:induction false} BlanksSkipped(s: Scan, gap: seq<byte>)
    requires s.quote == 0 && s.cur == [] && AllBlank(gap)
    ensures ScanFrom(s, gap) == s
  {
    if gap != [] {
      BlanksSkipped(s, gap[..|gap| - 1]);
    }
  }

  ghost predicate AllBlank(gap: seq<byte>) {
    forall k :: 0 <= k < |gap| ==> gap[k] == 32 || gap[k] == 9
  }

  // ----- which words a line can spell -----

  /** A word that some line spells: not empty and without quote characters. */
  ghost predicate IsWord(w: seq<byte>) {
    w != [] && NoQuotes(w)
  }

  ghost predicate NoQuotes(w: seq<byte>) {
    forall k :: 0 <= k < |w| ==> w[k] != 34 && w[k] != 39
  }

  ghost predicate AllWords(ws: seq<seq<byte>>) {
    forall k :: 0 <= k < |ws| ==> IsWord(ws[k])
  }

  ghost predicate NoBlanks(w: seq<byte>) {
    forall k :: 0 <= k < |w| ==> w[k] != 32 && w[k] != 9
  }

  /** A word is written in parts: as it is, or between two quote marks of either kind. */
  datatype Part = Plain(text: seq<byte>) | Quoted(mark: byte, text: seq<byte>)

  ghost predicate IsPart(p: Part) {
    match p
    case Plain(t) => NoBlanks(t) && NoQuotes(t)
    case Quoted(q, t) => (q == 34 || q == 39) && q !in t
  }

  ghost predicate AreParts(ps: seq<Part>) {
    forall k :: 0 <= k < |ps| ==> IsPart(ps[k])
  }

  function Written(p: Part): seq<byte> {
    match p
    case Plain(t) => t
    case Quoted(q, t) => [q] + t + [q]
  }

  /** The text without its quote characters, those of the other kind included. */
  function Stripped(t: seq<byte>): seq<byte> {
    if t == [] then []
    else
      var n := |t| - 1;
      Stripped(t[..n]) + if t[n] == 34 || t[n] == 39 then [] else [t[n]]
  }

  function Meant(p: Part): seq<byte> {
    match p
    case Plain(t) => t
    case Quoted(_, t) => Stripped(t)
  }

  function WordText(ps: seq<Part>): seq<byte> {
    if ps == [] then [] else WordText(ps[..|ps| - 1]) + Written(ps[|ps| - 1])
  }

  function WordMeaning(ps: seq<Part>): seq<byte> {
    if ps == [] then [] else WordMeaning(ps[..|ps| - 1]) + Meant(ps[|ps| - 1])
  }

  /** The words of a line, each after a gap of blanks. */
  function Spelled(ws: seq<seq<Part>>, gaps: seq<seq<byte>>): seq<byte>
    requires |gaps| == |ws|
  {
    if ws == [] then []
    else
      var n := |ws| - 1;
      Spelled(ws[..n], gaps[..n]) + gaps[n] + WordText(ws[n])
  }

  /** The arguments they mean; a word that means nothing is none. */
  function Meanings(ws: seq<seq<Part>>): seq<seq<byte>> {
    if ws == [] then []
    else
      var n := |ws| - 1;
      var w := WordMeaning(ws[n]);
      Meanings(ws[..n]) + if w == [] then [] else [w]
  }

  ghost predicate AllParts(ws: seq<seq<Part>>) {
    forall k :: 0 <= k < |ws| ==> AreParts(ws[k])
  }

  /** All gaps are blanks, and none but the first is empty. */
  ghost predicate AreGaps(gaps: seq<seq<byte>>) {
    forall k :: 0 <= k < |gaps| ==> AllBlank(gaps[k]) && (k > 0 ==> gaps[k] != [])
  }

  lemma Associative(a: seq<byte>, b: seq<byte>, c: seq<byte>)
    ensures a + b + c == a + (b + c)
  {
  }

  lemma ScanOne(s: Scan, ch: byte)
    ensures ScanFrom(s, [ch]) == Step(s, ch)
  {
    assert [ch][..0] == [];
    assert ScanFrom(s, [ch][..0]) == s;
  }

  lemma {:induction false} PlainScanned(s: Scan, w: seq<byte>)
    requires NoQuotes(w) && (s.quote == 0 ==> NoBlanks(w))
    ensures ScanFrom(s, w) == s.(cur := s.cur + w)
    decreases w
  {
    if w == [] {
      assert s.cur + w == s.cur;
    } else {
      var n := |w| - 1;
      assert w[..n] + [w[n]] == w;
      assert s.cur + w[..n] + [w[n]] == s.cur + w;
      PlainScanned(s, w[..n]);
    }
  }

  /** Between quote marks everything but quote characters is read. */
  lemma {:induction false} BodyScanned(s: Scan, t: seq<byte>)
    requires (s.quote == 34 || s.quote == 39) && s.quote !in t
    ensures ScanFrom(s, t) == s.(cur := s.cur + Stripped(t))
    decreases t
  {
    if t == [] {
      assert s.cur + Stripped(t) == s.cur;
    } else {
      var n := |t| - 1;
      assert t[n] in t;
      BodyScanned(s, t[..n]);
      assert s.cur + Stripped(t[..n]) + [t[n]] == s.cur + (Stripped(t[..n]) + [t[n]]);
    }
  }

  /** Text between two quote marks of either kind, blanks and marks of the other kind in it, adds itself without
      those marks to the argument and leaves no quote open. */
  lemma QuotedScanned(s: Scan, q: byte, t: seq<byte>)
    requires s.quote == 0 && (q == 34 || q == 39) && q !in t
    ensures ScanFrom(s, [q] + t + [q]) == s.(cur := s.cur + Stripped(t))
  {
    ScanOne(s, q);
    ScanAppend(s, [q], t);
    BodyScanned(s.(quote := q), t);
    ScanOne(s.(quote := q, cur := s.cur + Stripped(t)), q);
    ScanAppend(s, [q] + t, [q]);
  }

  lemma PartScanned(s: Scan, p: Part)
    requires s.quote == 0 && IsPart(p)
    ensures ScanFrom(s, Written(p)) == s.(cur := s.cur + Meant(p))
  {
    match p
    case Plain(t) => PlainScanned(s, t);
    case Quoted(q, t) => QuotedScanned(s, q, t);
  }

  lemma NextPart(s: Scan, text: seq<byte>, m: seq<byte>, p: Part)
    requires s.quote == 0 && IsPart(p) && ScanFrom(s, text) == s.(cur := s.cur + m)
    ensures ScanFrom(s, text + Written(p)) == s.(cur := s.cur + (m + Meant(p)))
  {
    ScanAppend(s, text, Written(p));
    PartScanned(s.(cur := s.cur + m), p);
    Associative(s.cur, m, Meant(p));
  }

  lemma {:induction false} WordScanned(s: Scan, ps: seq<Part>)
    requires s.quote == 0 && AreParts(ps)
    ensures ScanFrom(s, WordText(ps)) == s.(cur := s.cur + WordMeaning(ps))
    decreases |ps|
  {
    if ps == [] {
      assert s.cur + WordMeaning(ps) == s.cur;
    } else {
      var n := |ps| - 1;
      WordScanned(s, ps[..n]);
      NextPart(s, WordText(ps[..n]), WordMeaning(ps[..n]), ps[n]);
    }
  }

  lemma GapScanned(s: Scan, gap: seq<byte>)
    requires s.quote == 0 && AllBlank(gap) && (s.cur != [] ==> gap != [])
    ensures ScanFrom(s, gap) == Scan(Flush(s), [], 0)
  {
    if s.cur == [] {
      BlanksSkipped(s, gap);
    } else {
      assert gap == [gap[0]] + gap[1..];
      ScanAppend(s, [gap[0]], gap[1..]);
      ScanOne(s, gap[0]);
      BlanksSkipped(Scan(Flush(s), [], 0), gap[1..]);
    }
  }

  lemma GapAndWord(line: seq<byte>, gap: seq<byte>, ps: seq<Part>, s: Scan)
    requires ScanFrom(START, line) == s && s.quote == 0 && AllBlank(gap) && (s.cur != [] ==> gap != []) && AreParts(ps)
    ensures ScanFrom(START, line + gap + WordText(ps)) == Scan(Flush(s), WordMeaning(ps), 0)
  {
    ScanAppend(START, line, gap);
    GapScanned(s, gap);
    ScanAppend(START, line + gap, WordText(ps));
    WordScanned(Scan(Flush(s), [], 0), ps);
    assert [] + WordMeaning(ps) == WordMeaning(ps);
  }

  lemma {:induction false} SpelledScanned(ws: seq<seq<Part>>, gaps: seq<seq<byte>>)
    requires |gaps| == |ws| && AllParts(ws) && AreGaps(gaps)
    ensures var s := ScanFrom(START, Spelled(ws, gaps));
            s.quote == 0 && Flush(s) == Meanings(ws) && (ws == [] ==> s == START)
    decreases |ws|
  {
    if ws != [] {
      var n := |ws| - 1;
      SpelledScanned(ws[..n], gaps[..n]);
      SpelledStep(ws, gaps, ScanFrom(START, Spelled(ws[..n], gaps[..n])));
    }
  }

  lemma SpelledStep(ws: seq<seq<Part>>, gaps: seq<seq<byte>>, s: Scan)
    requires |gaps| == |ws| > 0 && AllParts(ws) && AreGaps(gaps)
    requires var n := |ws| - 1;
             && s == ScanFrom(START, Spelled(ws[..n], gaps[..n])) && s.quote == 0
             && Flush(s) == Meanings(ws[..n]) && (n == 0 ==> s == START)
    ensures var s' := ScanFrom(START, Spelled(ws, gaps)); s'.quote == 0 && Flush(s') == Meanings(ws)
  {
    var n := |ws| - 1;
    GapAndWord(Spelled(ws[..n], gaps[..n]), gaps[n], ws[n], s);
  }

  /** Words spelled on a line, in parts that are plain or quoted in either kind, with any blanks between and after
      them, are read as what they mean. */
  lemma WordsParseBack(ws: seq<seq<Part>>, gaps: seq<seq<byte>>, tail: seq<byte>)
    requires |gaps| == |ws| && AllParts(ws) && AreGaps(gaps) && AllBlank(tail)
    ensures Tokens(Spelled(ws, gaps) + tail) == Meanings(ws)
  {
    var line := Spelled(ws, gaps);
    SpelledScanned(ws, gaps);
    ScanAppend(START, line, tail);
    if tail == [] {
      assert line + tail == line;
    } else {
      GapScanned(ScanFrom(START, line), tail);
    }
  }

  /** A quote still open at the end of a line ends there, as if it were closed. */
  lemma OpenQuoteEnds(ws: seq<seq<Part>>, gaps: seq<seq<byte>>, tail: seq<byte>, q: byte, t: seq<byte>)
    requires |gaps| == |ws| && AllParts(ws) && AreGaps(gaps) && AllBlank(tail) && (q == 34 || q == 39) && q !in t
    ensures Tokens(Spelled(ws, gaps) + tail + [q] + t) == Tokens(Spelled(ws, gaps) + tail + [q] + t + [q])
  {
    var line := Spelled(ws, gaps) + tail;
    SpelledScanned(ws, gaps);
    ScanAppend(START, Spelled(ws, gaps), tail);
    if tail == [] {
      assert line == Spelled(ws, gaps);
    } else {
      GapScanned(ScanFrom(START, Spelled(ws, gaps)), tail);
    }
    var s := ScanFrom(START, line);
    ScanAppend(START, line, [q]);
    ScanOne(s, q);
    ScanAppend(START, line + [q], t);
    BodyScanned(s.(quote := q), t);
    ScanAppend(START, line + [q] + t, [q]);
    ScanOne(ScanFrom(START, line + [q] + t), q);
  }

  // ----- every line spells some words -----

  /** How far a line has been read as words: what is spelled, the blanks behind it, and the open quote if any. */
  datatype Shape = Shape(ws: seq<seq<Part>>, gaps: seq<seq<byte>>, tail: seq<byte>, open: Option<(byte, seq<byte>)>)

  ghost predicate IsShape(x: Shape) {
    && |x.gaps| == |x.ws| && AllParts(x.ws) && AreGaps(x.gaps) && AllBlank(x.tail)
    && (x.open.Some? ==> (x.open.value.0 == 34 || x.open.value.0 == 39) && x.open.value.0 !in x.open.value.1)
  }

  function TextOf(x: Shape): seq<byte>
    requires |x.gaps| == |x.ws|
  {
    match x.open
    case None => Spelled(x.ws, x.gaps) + x.tail
    case Some((q, t)) => Spelled(x.ws, x.gaps) + x.tail + [q] + t
  }

  lemma SnocPart(ps: seq<Part>, p: Part)
    ensures WordText(ps + [p]) == WordText(ps) + Written(p) && WordMeaning(ps + [p]) == WordMeaning(ps) + Meant(p)
  {
    assert (ps + [p])[..|ps|] == ps;
  }

  lemma OnePart(p: Part)
    ensures WordText([p]) == Written(p) && WordMeaning([p]) == Meant(p)
  {
    SnocPart([], p);
    assert [] + [p] == [p];
  }

  lemma SpelledLonger(ws: seq<seq<Part>>, gaps: seq<seq<byte>>, p: Part)
    requires |gaps| == |ws| > 0
    ensures var n := |ws| - 1; Spelled(ws[n := ws[n] + [p]], gaps) == Spelled(ws, gaps) + Written(p)
  {
    var n := |ws| - 1;
    var ws', front := ws[n := ws[n] + [p]], Spelled(ws[..n], gaps[..n]) + gaps[n];
    assert ws'[..n] == ws[..n];
    SnocPart(ws[n], p);
    Associative(front, WordText(ws[n]), Written(p));
  }

  lemma SpelledMore(ws: seq<seq<Part>>, gaps: seq<seq<byte>>, gap: seq<byte>, p: Part)
    requires |gaps| == |ws|
    ensures Spelled(ws + [[p]], gaps + [gap]) == Spelled(ws, gaps) + gap + Written(p)
  {
    assert (ws + [[p]])[..|ws|] == ws && (gaps + [gap])[..|ws|] == gaps;
    OnePart(p);
  }

  lemma LongerWord(x: Shape, p: Part) returns (y: Shape)
    requires IsShape(x) && x.open == None && IsPart(p) && x.tail == [] && x.ws != []
    ensures IsShape(y) && y.open == None && TextOf(y) == TextOf(x) + Written(p)
  {
    var n := |x.ws| - 1;
    y := x.(ws := x.ws[n := x.ws[n] + [p]]);
    SpelledLonger(x.ws, x.gaps, p);
    var text, text' := Spelled(x.ws, x.gaps), Spelled(y.ws, y.gaps);
    assert text + [] == text && text' + [] == text';
  }

  lemma MoreParts(ws: seq<seq<Part>>, p: Part)
    requires AllParts(ws) && IsPart(p)
    ensures AllParts(ws + [[p]])
  {
  }

  lemma MoreGaps(gaps: seq<seq<byte>>, gap: seq<byte>)
    requires AreGaps(gaps) && AllBlank(gap) && (gaps == [] || gap != [])
    ensures AreGaps(gaps + [gap])
  {
  }

  lemma NothingAfter(s: seq<byte>)
    ensures s + [] == s
  {
  }

  lemma NewWord(x: Shape, p: Part) returns (y: Shape)
    requires IsShape(x) && x.open == None && IsPart(p) && (x.ws == [] || x.tail != [])
    ensures IsShape(y) && y.open == None && TextOf(y) == TextOf(x) + Written(p)
  {
    y := Shape(x.ws + [[p]], x.gaps + [x.tail], [], None);
    MoreParts(x.ws, p);
    MoreGaps(x.gaps, x.tail);
    assert TextOf(y) == TextOf(x) + Written(p) by {
      SpelledMore(x.ws, x.gaps, x.tail, p);
      NothingAfter(Spelled(y.ws, y.gaps));
    }
  }

  /** One part more: of the last word, or of a new one behind a gap. */
  lemma AddPart(x: Shape, p: Part) returns (y: Shape)
    requires IsShape(x) && x.open == None && IsPart(p)
    ensures IsShape(y) && y.open == None && TextOf(y) == TextOf(x) + Written(p)
  {
    if x.tail == [] && x.ws != [] {
      y := LongerWord(x, p);
    } else {
      y := NewWord(x, p);
    }
  }

  lemma ByteInside(x: Shape, ch: byte) returns (y: Shape)
    requires IsShape(x) && x.open.Some?
    ensures IsShape(y) && TextOf(y) == TextOf(x) + [ch]
  {
    var (q, t) := x.open.value;
    var front := Spelled(x.ws, x.gaps) + x.tail;
    if ch == q {
      y := AddPart(x.(open := None), Quoted(q, t));
      Associative(front, [q] + t, [q]);
      Associative(front, [q], t);
    } else {
      y := x.(open := Some((q, t + [ch])));
      Associative(front + [q], t, [ch]);
    }
  }

  lemma ByteOutside(x: Shape, ch: byte) returns (y: Shape)
    requires IsShape(x) && x.open.None?
    ensures IsShape(y) && TextOf(y) == TextOf(x) + [ch]
  {
    if ch == 32 || ch == 9 {
      y := x.(tail := x.tail + [ch]);
      Associative(Spelled(x.ws, x.gaps), x.tail, [ch]);
    } else if ch == 34 || ch == 39 {
      y := x.(open := Some((ch, [])));
      var text := TextOf(x) + [ch];
      assert text + [] == text;
    } else {
      y := AddPart(x, Plain([ch]));
    }
  }

  /** Every line is such words, blanks, and possibly an open quote, so that the two lemmas above say what any line
      is read as. */
  lemma {:induction false} EveryLineHasShape(line: seq<byte>) returns (x: Shape)
    ensures IsShape(x) && TextOf(x) == line
  {
    if line == [] {
      x := Shape([], [], [], None);
    } else {
      var n := |line| - 1;
      assert line == line[..n] + [line[n]];
      x := EveryLineHasShape(line[..n]);
      if x.open.None? {
        x := ByteOutside(x, line[n]);
      } else {
        x := ByteInside(x, line[n]);
      }
    }
  }

  lemma {:induction false} ScannedAreWords(line: seq<byte>)
    ensures AllWords(ScanFrom(START, line).done) && NoQuotes(ScanFrom(START, line).cur)
  {
    if line != [] {
      ScannedAreWords(line[..|line| - 1]);
    }
  }

  /** Exactly the lists of non-empty words without quote characters can be spelled. */
  lemma ExpressibleIff(ws: seq<seq<byte>>)
    ensures (exists line: seq<byte> :: Tokens(line) == ws) <==> AllWords(ws)
  {
    forall line: seq<byte>
      ensures AllWords(Tokens(line))
    {
      ScannedAreWords(line);
    }
    if AllWords(ws) {
      var parts := seq(|ws|, i requires 0 <= i < |ws| => [Quoted(34, ws[i])]);
      var gaps: seq<seq<byte>> := seq(|ws|, _ => [32]);
      QuotedMean(ws, parts);
      QuotedAreParts(ws, parts);
      WordsParseBack(parts, gaps, []);
    }
  }

  lemma {:induction false} StrippedSame(t: seq<byte>)
    requires NoQuotes(t)
    ensures Stripped(t) == t
  {
    if t != [] {
      StrippedSame(t[..|t| - 1]);
    }
  }

  lemma {:induction false} StrippedLength(t: seq<byte>)
    ensures |Stripped(t)| <= |t| && (|Stripped(t)| == |t| ==> NoQuotes(t))
  {
    if t != [] {
      StrippedLength(t[..|t| - 1]);
    }
  }

  /** Quoting a text keeps it as one argument exactly when it has no quote character of the other kind either. */
  lemma QuotingKeepsIff(q: byte, t: seq<byte>)
    requires (q == 34 || q == 39) && q !in t && t != []
    ensures Tokens([q] + t + [q]) == [t] <==> NoQuotes(t)
  {
    QuotedScanned(START, q, t);
    assert START.cur + Stripped(t) == Stripped(t);
    StrippedLength(t);
    if NoQuotes(t) {
      StrippedSame(t);
    } else if Stripped(t) != [] {
      assert Tokens([q] + t + [q]) == [Stripped(t)];
    }
  }

  /** `"it's ok"`: one argument, without the apostrophe. */
  lemma ApostropheExample()
    ensures Tokens([34, 105, 116, 39, 115, 32, 111, 107, 34]) == [[105, 116, 115, 32, 111, 107]]
  {
    var t: seq<byte> := [105, 116, 39, 115, 32, 111, 107];
    var line: seq<byte> := [34, 105, 116, 39, 115, 32, 111, 107, 34];
    assert line == [34] + t + [34];
    QuotedScanned(START, 34, t);
    StripApostrophe([105, 116], [115, 32, 111, 107]);
    assert [105, 116] + [39] + [115, 32, 111, 107] == t;
    assert [105, 116] + [115, 32, 111, 107] == [105, 116, 115, 32, 111, 107];
    assert START.cur + Stripped(t) == Stripped(t);
  }

  lemma {:induction false} StripApostrophe(a: seq<byte>, b: seq<byte>)
    requires NoQuotes(a) && NoQuotes(b)
    ensures Stripped(a + [39] + b) == a + b
    decreases b
  {
    var t := a + [39] + b;
    if b == [] {
      assert t[..|t| - 1] == a && a + b == a;
      StrippedSame(a);
    } else {
      var n := |b| - 1;
      StripApostrophe(a, b[..n]);
      assert t[..|t| - 1] == a + [39] + b[..n];
      assert a + b[..n] + [b[n]] == a + b;
    }
  }

  lemma OneQuoted(w: seq<byte>)
    requires IsWord(w)
    ensures AreParts([Quoted(34, w)]) && WordMeaning([Quoted(34, w)]) == w
  {
    StrippedSame(w);
    OnePart(Quoted(34, w));
  }

  lemma {:induction false} QuotedMean(ws: seq<seq<byte>>, parts: seq<seq<Part>>)
    requires |parts| == |ws| && AllWords(ws) && forall k :: 0 <= k < |ws| ==> parts[k] == [Quoted(34, ws[k])]
    ensures Meanings(parts) == ws
    decreases |ws|
  {
    if ws != [] {
      var n := |ws| - 1;
      QuotedMean(ws[..n], parts[..n]);
      OneQuoted(ws[n]);
      LastMeaning(parts, ws[n]);
      assert ws == ws[..n] + [ws[n]];
    }
  }

  lemma QuotedAreParts(ws: seq<seq<byte>>, parts: seq<seq<Part>>)
    requires |parts| == |ws| && AllWords(ws) && forall k :: 0 <= k < |ws| ==> parts[k] == [Quoted(34, ws[k])]
    ensures AllParts(parts)
  {
    forall k | 0 <= k < |ws|
      ensures AreParts(parts[k])
    {
      OneQuoted(ws[k]);
    }
  }

  lemma LastMeaning(ws: seq<seq<Part>>, w: seq<byte>)
    requires ws != [] && WordMeaning(ws[|ws| - 1]) == w != []
    ensures Meanings(ws) == Meanings(ws[..|ws| - 1]) + [w]
  {
  }

  // ----- the buffer -----

  /** Each argument followed by a NUL. */
  function Packed(ws: seq<seq<byte>>): seq<byte> {
    if ws == [] then [] else Packed(ws[..|ws| - 1]) + ws[|ws| - 1] + [0]
  }

  lemma PackedSnoc(ws: seq<seq<byte>>, w: seq<byte>)
    ensures Packed(ws + [w]) == Packed(ws) + w + [0]
  {
    assert (ws + [w])[..|ws|] == ws;
  }

  lemma {:induction false} PackedCons(ws: seq<seq<byte>>)
    requires ws != []
    ensures Packed(ws) == ws[0] + [0] + Packed(ws[1..])
    decreases |ws|
  {
    var n := |ws| - 1;
    if n == 0 {
      assert ws[..n] == [] && ws[1..] == [];
    } else {
      PackedCons(ws[..n]);
      assert ws[..n][1..] == ws[1..][..n - 1] && ws[1..][n - 1] == ws[n];
      calc {
        Packed(ws);
        Packed(ws[..n]) + ws[n] + [0];
        ws[0] + [0] + Packed(ws[1..][..n - 1]) + ws[n] + [0];
        ws[0] + [0] + (Packed(ws[1..][..n - 1]) + ws[n] + [0]);
        ws[0] + [0] + Packed(ws[1..]);
      }
    }
  }

  /** The first NUL from pos on, or the end. */
  function NulFrom(s: seq<byte>, pos: nat): (k: nat)
    requires pos <= |s|
    ensures pos <= k <= |s| && (k < |s| ==> s[k] == 0) && forall j :: pos <= j < k ==> s[j] != 0
    decreases |s| - pos
  {
    if pos == |s| || s[pos] == 0 then pos else NulFrom(s, pos + 1)
  }

  /** Field n of a NUL-separated buffer, counted from pos; empty when there are not that many. */
  function Field(s: seq<byte>, pos: nat, n: nat): seq<byte>
    requires pos <= |s|
    decreases n
  {
    var k := NulFrom(s, pos);
    if n == 0 then s[pos..k] else if k == |s| then [] else Field(s, k + 1, n - 1)
  }

  ghost predicate NulFree(s: seq<byte>) {
    forall k :: 0 <= k < |s| ==> s[k] != 0
  }

  ghost predicate AllNulFree(ws: seq<seq<byte>>) {
    forall k :: 0 <= k < |ws| ==> NulFree(ws[k])
  }

  /** `m` stands in `s` at position pos. */
  ghost predicate StandsAt(s: seq<byte>, pos: nat, m: seq<byte>) {
    pos + |m| <= |s| && s[pos..pos + |m|] == m
  }

  lemma StandsSplit(s: seq<byte>, pos: nat, a: seq<byte>, b: seq<byte>)
    requires StandsAt(s, pos, a + b)
    ensures StandsAt(s, pos, a) && StandsAt(s, pos + |a|, b)
  {
    var m := s[pos..pos + |a + b|];
    assert m[..|a|] == s[pos..pos + |a|] && m[|a|..] == s[pos + |a|..pos + |a| + |b|];
    assert (a + b)[..|a|] == a && (a + b)[|a|..] == b;
  }

  lemma NulEndsWord(s: seq<byte>, pos: nat, w: seq<byte>, rest: seq<byte>)
    requires NulFree(w) && StandsAt(s, pos, w + [0] + rest)
    ensures NulFrom(s, pos) == pos + |w| < |s| && s[pos..pos + |w|] == w && StandsAt(s, pos + |w| + 1, rest)
  {
    StandsSplit(s, pos, w + [0], rest);
    StandsSplit(s, pos, w, [0]);
    WordEnds(s, pos, w);
  }

  lemma WordEnds(s: seq<byte>, pos: nat, w: seq<byte>)
    requires NulFree(w) && StandsAt(s, pos, w) && StandsAt(s, pos + |w|, [0])
    ensures NulFrom(s, pos) == pos + |w| < |s|
  {
    var end := pos + |w|;
    assert s[end] == s[end..end + 1][0];
    forall j | pos <= j < end
      ensures s[j] != 0
    {
      assert s[j] == s[pos..end][j - pos];
    }
  }

  lemma FirstField(s: seq<byte>, pos: nat, ws: seq<seq<byte>>)
    requires ws != [] && AllNulFree(ws) && StandsAt(s, pos, Packed(ws))
    ensures NulFrom(s, pos) == pos + |ws[0]| < |s| && s[pos..pos + |ws[0]|] == ws[0]
    ensures StandsAt(s, pos + |ws[0]| + 1, Packed(ws[1..]))
  {
    PackedCons(ws);
    NulEndsWord(s, pos, ws[0], Packed(ws[1..]));
  }

  /** The fields of packed arguments are the arguments. */
  lemma {:induction false} FieldOfPacked(s: seq<byte>, pos: nat, ws: seq<seq<byte>>, n: nat)
    requires n < |ws| && AllNulFree(ws) && StandsAt(s, pos, Packed(ws))
    ensures Field(s, pos, n) == ws[n]
    decreases n
  {
    FirstField(s, pos, ws);
    if n > 0 {
      FieldOfPacked(s, pos + |ws[0]| + 1, ws[1..], n - 1);
    }
  }

  /** NUL-free pieces with a NUL between each two. */
  function Joined(ps: seq<seq<byte>>): seq<byte>
    requires ps != []
  {
    if |ps| == 1 then ps[0] else ps[0] + [0] + Joined(ps[1..])
  }

  ghost function JoinedText(ps: seq<seq<byte>>): seq<byte>
    requires ps != []
  {
    Joined(ps)
  }

  ghost function FieldAt(s: seq<byte>, pos: nat, n: nat): seq<byte>
    requires pos <= |s|
  {
    Field(s, pos, n)
  }

  lemma LastPiece(s: seq<byte>, pos: nat, w: seq<byte>, n: nat)
    requires pos <= |s| && NulFree(w) && s[pos..] == w
    ensures FieldAt(s, pos, n) == if n == 0 then w else []
  {
    forall j | pos <= j < |s|
      ensures s[j] != 0
    {
      assert s[j] == w[j - pos];
    }
    assert NulFrom(s, pos) == |s|;
  }

  lemma FirstPiece(s: seq<byte>, pos: nat, w: seq<byte>, rest: seq<byte>, n: nat)
    requires pos <= |s| && NulFree(w) && s[pos..] == w + [0] + rest
    ensures pos + |w| + 1 <= |s| && s[pos + |w| + 1..] == rest
    ensures FieldAt(s, pos, n) == if n == 0 then w else FieldAt(s, pos + |w| + 1, n - 1)
  {
    var m := w + [0] + rest;
    assert s[pos..pos + |m|] == s[pos..];
    NulEndsWord(s, pos, w, rest);
    assert s[pos + |w| + 1..] == m[|w| + 1..] == rest;
  }

  lemma RestOf(ps: seq<seq<byte>>)
    requires |ps| > 1 && AllNulFree(ps)
    ensures JoinedText(ps) == ps[0] + [0] + JoinedText(ps[1..]) && NulFree(ps[0]) && AllNulFree(ps[1..])
  {
  }

  lemma {:induction false} FieldOfJoined(s: seq<byte>, pos: nat, ps: seq<seq<byte>>, n: nat, field: seq<byte>)
    requires ps != [] && AllNulFree(ps) && pos <= |s| && s[pos..] == JoinedText(ps) && field == FieldAt(s, pos, n)
    ensures field == if n < |ps| then ps[n] else []
    decreases n
  {
    if |ps| == 1 {
      LastPiece(s, pos, ps[0], n);
    } else {
      RestOf(ps);
      FirstPiece(s, pos, ps[0], JoinedText(ps[1..]), n);
      if n > 0 {
        FieldOfJoined(s, pos + |ps[0]| + 1, ps[1..], n - 1, field);
      }
    }
  }

  /** Every buffer is such pieces. Field n is piece n, and beyond the last piece it is empty. */
  lemma FieldsOfBuffer(s: seq<byte>, n: nat) returns (ps: seq<seq<byte>>)
    ensures ps != [] && AllNulFree(ps) && Joined(ps) == s
    ensures Field(s, 0, n) == if n < |ps| then ps[n] else []
  {
    ps := PiecesOf(s);
    assert s[0..] == s;
    FieldOfJoined(s, 0, ps, n, FieldAt(s, 0, n));
  }

  lemma {:induction false} PiecesOf(s: seq<byte>) returns (ps: seq<seq<byte>>)
    ensures ps != [] && AllNulFree(ps) && Joined(ps) == s
  {
    if s == [] {
      ps := [[]];
    } else {
      var qs := PiecesOf(s[1..]);
      if s[0] == 0 {
        ps := [[]] + qs;
        assert ps[1..] == qs && s == [0] + s[1..] == [] + [0] + Joined(qs);
      } else {
        ps := LongerPiece(s[0], qs);
        assert s == [s[0]] + s[1..];
      }
    }
  }

  lemma LongerPiece(ch: byte, qs: seq<seq<byte>>) returns (ps: seq<seq<byte>>)
    requires ch != 0 && qs != [] && AllNulFree(qs)
    ensures ps != [] && AllNulFree(ps) && Joined(ps) == [ch] + Joined(qs)
  {
    ps := [[ch] + qs[0]] + qs[1..];
    assert ps[1..] == qs[1..];
    if |qs| > 1 {
      Associative([ch], qs[0], [0]);
      Associative([ch], qs[0] + [0], Joined(qs[1..]));
    }
  }

  lemma {:induction false} ScannedNulFree(line: seq<byte>)
    requires NulFree(line)
    ensures NulFree(ScanFrom(START, line).cur)
    ensures forall k :: 0 <= k < |ScanFrom(START, line).done| ==> NulFree(ScanFrom(START, line).done[k])
  {
    if line != [] {
      ScannedNulFree(line[..|line| - 1]);
    }
  }

  // ----- the loops -----

  /** The skipping loops: past the blanks from i on. */
  method SkipBlanks(line: seq<byte>, start: nat) returns (i: nat)
    requires start <= |line|
    ensures start <= i <= |line| && AllBlank(line[start..i])
    ensures i < |line| ==> !IsBlank(line[i])
  {
    i := start;
    while i < |line| && IsBlank(line[i])
      invariant start <= i <= |line| && AllBlank(line[start..i])
    {
      assert line[start..i + 1] == line[start..i] + [line[i]];
      i := i + 1;
    }
  }

  /** The first n bytes of the buffer are the ended arguments, and the one being read. */
  ghost predicate Holds(buf: seq<byte>, s: Scan, argStart: nat, n: nat) {
    && argStart <= n <= |buf|
    && buf[..argStart] == Packed(s.done) && buf[argStart..n] == s.cur
  }

  lemma EndArgument(buf: seq<byte>, s: Scan, argStart: nat, n: nat)
    requires Holds(buf, s, argStart, n) && n < |buf| && s.cur != []
    ensures Holds(buf[n := 0], Scan(Flush(s), [], 0), n + 1, n + 1)
  {
    PackedSnoc(s.done, s.cur);
    var buf' := buf[n := 0];
    assert buf'[..n + 1] == buf[..argStart] + buf[argStart..n] + [0];
  }

  lemma ExtendArgument(buf: seq<byte>, s: Scan, argStart: nat, n: nat, ch: byte)
    requires Holds(buf, s, argStart, n) && n < |buf|
    ensures Holds(buf[n := ch], s.(cur := s.cur + [ch]), argStart, n + 1)
  {
    var buf' := buf[n := ch];
    assert buf'[..argStart] == buf[..argStart] && buf'[argStart..n + 1] == buf[argStart..n] + [ch];
  }

  lemma PrefixStep(line: seq<byte>, i: nat)
    requires i < |line|
    ensures ScanFrom(START, line[..i + 1]) == Step(ScanFrom(START, line[..i]), line[i])
  {
    assert line[..i + 1][..i] == line[..i];
  }

  lemma PrefixBlanks(line: seq<byte>, i: nat, j: nat)
    requires i <= j <= |line| && AllBlank(line[i..j])
    requires ScanFrom(START, line[..i]).quote == 0 && ScanFrom(START, line[..i]).cur == []
    ensures ScanFrom(START, line[..j]) == ScanFrom(START, line[..i])
  {
    assert line[..j] == line[..i] + line[i..j];
    ScanAppend(START, line[..i], line[i..j]);
    BlanksSkipped(ScanFrom(START, line[..i]), line[i..j]);
  }

  lemma BlankStep(line: seq<byte>, i: nat, j: nat)
    requires i < j <= |line| && AllBlank(line[i..j]) && ScanFrom(START, line[..i]).quote == 0
    ensures ScanFrom(START, line[..j]) == Scan(Flush(ScanFrom(START, line[..i])), [], 0)
  {
    PrefixStep(line, i);
    assert line[i..j][0] == line[i] && line[i..j][1..] == line[i + 1..j];
    PrefixBlanks(line, i + 1, j);
  }

  method Put(buf: array<byte>, pos: nat, ch: byte)
    requires pos < buf.Length
    modifies buf
    ensures buf[..] == old(buf[..])[pos := ch]
  {
    buf[pos] := ch;
  }

  /** The main loop of parse_command_heap. It stops at the end of the line, after the last argument there
      is room for, or with the buffer full. */
  method ScanLine(line: seq<byte>, buf: array<byte>)
    returns (argc: nat, argStart: nat, pos: nat, ghost used: nat, ghost s: Scan)
    requires buf.Length >= 64
    modifies buf
    ensures used <= |line| && s == ScanFrom(START, line[..used])
    ensures argc == |s.done| <= MAX_ARGS && (argc == MAX_ARGS ==> s.cur == [])
    ensures Holds(buf[..], s, argStart, pos) && pos <= buf.Length - 64
    ensures used == |line| || argc == MAX_ARGS || pos == buf.Length - 64
  {
    var i := SkipBlanks(line, 0);
    var inQuotes, quoteChar: byte := false, 0;
    argc, argStart, pos, s := 0, 0, 0, START;
    PrefixBlanks(line, 0, i);
    while i < |line| && argc < MAX_ARGS && pos < buf.Length - 64
      invariant i <= |line| && argc <= MAX_ARGS && pos <= buf.Length - 64
      invariant s == ScanFrom(START, line[..i])
      invariant argc == |s.done| && s.quote == if inQuotes then quoteChar else 0
      invariant inQuotes ==> quoteChar != 0
      invariant argc == MAX_ARGS ==> s.cur == []
      invariant Holds(buf[..], s, argStart, pos)
      decreases |line| - i
    {
      var ch := line[i];
      if !inQuotes && IsBlank(ch) {
        if pos > argStart {
          EndArgument(buf[..], s, argStart, pos);
          Put(buf, pos, 0);
          pos := pos + 1;
          argc := argc + 1;
          argStart := pos;
        }
        var j := SkipBlanks(line, i);
        BlankStep(line, i, j);
        s := Scan(Flush(s), [], 0);
        i := j;
      } else {
        PrefixStep(line, i);
        if IsQuote(ch) {
          if !inQuotes {
            inQuotes, quoteChar := true, ch;
          } else if ch == quoteChar {
            inQuotes := false;
          }
        } else {
          ExtendArgument(buf[..], s, argStart, pos, ch);
          Put(buf, pos, ch);
          pos := pos + 1;
        }
        s := Step(s, ch);
        i := i + 1;
      }
    }
    used := i;
  }

  // ----- how much of a line gets through -----

  /** The arguments that count: at most MAX_ARGS. */
  function First(ws: seq<seq<byte>>): seq<seq<byte>> {
    if |ws| <= MAX_ARGS then ws else ws[..MAX_ARGS]
  }

  /** How much of the buffer the arguments take. */
  function SizeOf(ws: seq<seq<byte>>): nat {
    |Packed(ws)|
  }

  lemma SizeSnoc(ws: seq<seq<byte>>, w: seq<byte>)
    ensures SizeOf(ws + [w]) == SizeOf(ws) + |w| + 1
  {
    PackedSnoc(ws, w);
  }

  /** Reading on only extends the argument being read. */
  lemma {:induction false} CurStays(s: Scan, line: seq<byte>)
    requires s.cur != []
    ensures s.done <= Flush(ScanFrom(s, line)) && |s.done| < |Flush(ScanFrom(s, line))|
    ensures s.cur <= Flush(ScanFrom(s, line))[|s.done|]
  {
    if line != [] {
      CurStays(s, line[..|line| - 1]);
      DoneStays(s, line[..|line| - 1]);
    }
  }

  lemma {:induction false} PackedPrefix(ws: seq<seq<byte>>, vs: seq<seq<byte>>)
    requires ws <= vs && AllWords(vs)
    ensures SizeOf(vs) >= SizeOf(ws) + 2 * (|vs| - |ws|)
    decreases |vs|
  {
    if |ws| < |vs| {
      var n := |vs| - 1;
      assert IsWord(vs[n]) && vs == vs[..n] + [vs[n]];
      SizeSnoc(vs[..n], vs[n]);
      PackedPrefix(ws, vs[..n]);
    } else {
      assert ws == vs;
    }
  }

  /** The bytes that the ended arguments and the one being read take. */
  ghost function Room(s: Scan): nat {
    SizeOf(s.done) + |s.cur|
  }

  lemma FlushPacked(s: Scan)
    ensures SizeOf(Flush(s)) == Room(s) + if s.cur == [] then 0 else 1
  {
    SizeSnoc(s.done, s.cur);
  }

  /** Arguments that go on after the last complete one take more room. */
  lemma MoreNeedsRoom(done: seq<seq<byte>>, cur: seq<byte>, all: seq<seq<byte>>)
    requires done <= all && |done| < |all| && AllWords(all) && cur <= all[|done|]
    ensures all == done + [cur] || SizeOf(all) > SizeOf(done) + |cur| + 1
  {
    var w := all[|done|];
    SizeSnoc(done, w);
    assert done + [w] <= all;
    PackedPrefix(done + [w], all);
    if |w| == |cur| && |all| == |done| + 1 {
      assert w == cur;
      assert all == done + [w];
    }
  }

  /** If scanning stops with no room left, what it got is all there is, or the line needs more room. */
  lemma StoppedShort(line: seq<byte>, used: nat, s: Scan)
    requires used <= |line| && s == ScanFrom(START, line[..used]) && |s.done| < MAX_ARGS
    ensures Flush(s) == First(Tokens(line)) || SizeOf(First(Tokens(line))) > Room(s) + 1
  {
    assert line == line[..used] + line[used..];
    ScanAppend(START, line[..used], line[used..]);
    DoneStays(s, line[used..]);
    ScannedAreWords(line);
    var all := First(Tokens(line));
    if s.cur != [] {
      CurStays(s, line[used..]);
      MoreNeedsRoom(s.done, s.cur, all);
    } else if |s.done| < |all| {
      PackedPrefix(s.done, all);
    }
  }

  /** With MAX_ARGS arguments ended, nothing later counts. */
  lemma AllEnded(line: seq<byte>, used: nat, s: Scan)
    requires used <= |line| && s == ScanFrom(START, line[..used]) && |s.done| == MAX_ARGS && s.cur == []
    ensures Flush(s) == First(Tokens(line))
  {
    assert line == line[..used] + line[used..];
    ScanAppend(START, line[..used], line[used..]);
    DoneStays(s, line[used..]);
  }

  lemma DeliveredIff(line: seq<byte>, used: nat, s: Scan, room: nat)
    requires used <= |line| && s == ScanFrom(START, line[..used]) && Room(s) <= room
    requires |s.done| <= MAX_ARGS && (|s.done| == MAX_ARGS ==> s.cur == [])
    requires used == |line| || |s.done| == MAX_ARGS || Room(s) == room
    ensures Flush(s) == First(Tokens(line)) <==> SizeOf(First(Tokens(line))) <= room + 1
  {
    FlushPacked(s);
    if used == |line| {
      assert line[..used] == line;
    } else if |s.done| == MAX_ARGS {
      AllEnded(line, used, s);
    } else {
      StoppedShort(line, used, s);
    }
  }

  /** A line needs no more room than its own length and one NUL. */
  lemma ShortLineFits(line: seq<byte>)
    ensures SizeOf(First(Tokens(line))) <= |line| + 1
  {
    RoomFits(line);
    FlushPacked(ScanFrom(START, line));
    ScannedAreWords(line);
    PackedPrefix(First(Tokens(line)), Tokens(line));
  }

  lemma {:induction false} RoomFits(line: seq<byte>)
    ensures Room(ScanFrom(START, line)) <= |line|
  {
    if line != [] {
      var s := ScanFrom(START, line[..|line| - 1]);
      RoomFits(line[..|line| - 1]);
      FlushPacked(s);
    }
  }

  /** The buffer that execute_command passes. */
  const ARGS_BYTES: nat := 64 * MAX_ARGS

  /** Every line of up to 1984 bytes fits, so all that the shell's own input (1024 bytes) can hold. */
  lemma ShellLinesFit(line: seq<byte>)
    requires |line| <= 1984
    ensures SizeOf(First(Tokens(line))) <= ARGS_BYTES - 63
  {
    ShortLineFits(line);
  }

  /** One byte more, as rust_bash_execute can pass, need not fit: a single word of 1985 bytes. */
  lemma TooLongExample(w: seq<byte>)
    requires IsWord(w) && NoBlanks(w) && |w| == 1985
    ensures Tokens(w) == [w] && SizeOf(First(Tokens(w))) > ARGS_BYTES - 63
  {
    PlainScanned(START, w);
    assert START.cur + w == w;
    assert START.done + [w] == [w];
    SizeSnoc([], w);
    assert [] + [w] == [w];
  }

  /** parse_command_heap: the buffer starts with the packed arguments of the part of the line that was read.
      They are the line's first 32 tokens exactly when those, packed, leave 63 bytes of the buffer. */
  method ParseCommand(line: seq<byte>, buf: array<byte>) returns (argc: nat, ghost used: nat)
    requires buf.Length >= 64
    modifies buf
    ensures used <= |line| && argc == |Tokens(line[..used])| <= MAX_ARGS
    ensures StandsAt(buf[..], 0, Packed(Tokens(line[..used])))
    ensures Tokens(line[..used]) == First(Tokens(line)) <==> SizeOf(First(Tokens(line))) <= buf.Length - 63
  {
    var argStart, pos;
    ghost var s;
    argc, argStart, pos, used, s := ScanLine(line, buf);
    DeliveredIff(line, used, s, buf.Length - 64);
    if pos > argStart && argc < MAX_ARGS {
      EndArgument(buf[..], s, argStart, pos);
      Put(buf, pos, 0);
      argc := argc + 1;
    }
  }

  /** The inner loops of get_arg_heap. */
  method NextNul(buf: array<byte>, start: nat) returns (pos: nat)
    requires start <= buf.Length
    ensures pos == NulFrom(buf[..], start)
  {
    pos := start;
    while pos < buf.Length && buf[pos] != 0
      invariant start <= pos <= buf.Length
      invariant NulFrom(buf[..], pos) == NulFrom(buf[..], start)
    {
      pos := pos + 1;
    }
  }

  /** get_arg_heap. */
  method GetArg(buf: array<byte>, n: nat) returns (arg: seq<byte>)
    ensures arg == Field(buf[..], 0, n)
  {
    var pos, current := 0, 0;
    while pos < buf.Length && current < n
      invariant pos <= buf.Length && current <= n
      invariant pos < buf.Length ==> Field(buf[..], pos, n - current) == Field(buf[..], 0, n)
      invariant pos == buf.Length ==> Field(buf[..], 0, n) == []
    {
      pos := NextNul(buf, pos);
      if pos < buf.Length {
        pos := pos + 1;
      }
      current := current + 1;
    }
    if pos >= buf.Length || current < n {
      return [];
    }
    var end := NextNul(buf, pos);
    return buf[pos..end];
  }

  lemma {:induction false} PrefixNulFree(line: seq<byte>, used: nat)
    requires NulFree(line) && used <= |line|
    ensures AllNulFree(Tokens(line[..used]))
  {
    ScannedNulFree(line[..used]);
  }

  /** The arguments read back from the buffer are the line's. */
  ghost predicate Delivers(buf: seq<byte>, argc: nat, ws: seq<seq<byte>>) {
    argc == |ws| && forall k: nat :: k < argc ==> Field(buf, 0, k) == ws[k]
  }

  /** parse_command_heap and then get_arg_heap on a NUL-free line: the arguments are its first 32 tokens, each
      in its place, exactly when those fit. */
  method ParseAndGet(line: seq<byte>, buf: array<byte>, n: nat) returns (argc: nat, arg: seq<byte>)
    requires NulFree(line) && buf.Length >= 64
    modifies buf
    ensures arg == Field(buf[..], 0, n)
    ensures Delivers(buf[..], argc, First(Tokens(line))) <==> SizeOf(First(Tokens(line))) <= buf.Length - 63
    ensures |line| <= buf.Length - 64 ==> Delivers(buf[..], argc, First(Tokens(line)))
  {
    ghost var used;
    argc, used := ParseCommand(line, buf);
    arg := GetArg(buf, n);
    PrefixNulFree(line, used);
    DeliversWhatStands(buf[..], Tokens(line[..used]), First(Tokens(line)));
    ShortLineFits(line);
  }

  lemma DeliversWhatStands(buf: seq<byte>, ws: seq<seq<byte>>, vs: seq<seq<byte>>)
    requires AllNulFree(ws) && StandsAt(buf, 0, Packed(ws))
    ensures Delivers(buf, |ws|, vs) <==> ws == vs
  {
    forall k: nat | k < |ws|
      ensures Field(buf, 0, k) == ws[k]
    {
      FieldOfPacked(buf, 0, ws, k);
    }
  }
}
