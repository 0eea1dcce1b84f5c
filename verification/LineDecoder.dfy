// The incremental line splitter behind the CLI output streams, with its fuse for
// lines that are too long.

/** What the splitter has to compute, stated on the whole text at once. */
module LineSpec {
  import opened JsStrings

  datatype Limit = Unlimited | AtMost(chars: nat)

  /** What the decoder reports to its owner. */
  datatype Event = Line(text: JsString) | Oversized(chars: nat)

  /** Newline-terminated lines, without their newline, and what follows the last one. */
  datatype Split = Split(lines: seq<JsString>, tail: JsString)

  predicate Fits(limit: Limit, length: nat) {
    limit.Unlimited? || length <= limit.chars
  }

  function SplitLines(text: JsString): Split {
    if text == [] then Split([], [])
    else
      var before := SplitLines(text[..|text| - 1]);
      var c := text[|text| - 1];
      if c == NEWLINE then Split(before.lines + [before.tail], []) else before.(tail := before.tail + [c])
  }

  function JoinLines(lines: seq<JsString>): JsString {
    if lines == [] then [] else JoinLines(lines[..|lines| - 1]) + lines[|lines| - 1] + [NEWLINE]
  }

  ghost predicate NewlineFree(s: Split) {
    NEWLINE !in s.tail && forall k | 0 <= k < |s.lines| :: NEWLINE !in s.lines[k]
  }

  /** Splitting loses nothing and cuts at every newline. */
  lemma {:induction false} SplitIsSound(text: JsString)
    ensures var s := SplitLines(text); NewlineFree(s) && JoinLines(s.lines) + s.tail == text
    decreases |text|
  {
    if text != [] {
      var init, c := text[..|text| - 1], text[|text| - 1];
      SplitIsSound(init);
      var before := SplitLines(init);
      if c == NEWLINE {
        assert (before.lines + [before.tail])[..|before.lines|] == before.lines;
      }
      assert text == init + [c];
    }
  }

  lemma {:induction false} SplitFragment(text: JsString, fragment: JsString)
    requires NEWLINE !in fragment
    ensures SplitLines(text + fragment) == Split(SplitLines(text).lines, SplitLines(text).tail + fragment)
    decreases |fragment|
  {
    if fragment == [] {
      assert text + fragment == text;
    } else {
      var n := |fragment| - 1;
      SplitFragment(text, fragment[..n]);
      assert (text + fragment)[..|text + fragment| - 1] == text + fragment[..n];
      assert fragment == fragment[..n] + [fragment[n]];
    }
  }

  lemma SplitNewline(text: JsString, fragment: JsString)
    requires NEWLINE !in fragment
    ensures SplitLines(text + fragment + [NEWLINE]) ==
            Split(SplitLines(text).lines + [SplitLines(text).tail + fragment], [])
  {
    SplitFragment(text, fragment);
    assert (text + fragment + [NEWLINE])[..|text + fragment|] == text + fragment;
  }

  /** Splitting is the only way to cut a text into newline-free lines and a tail. */
  lemma {:induction false} SplitIsUnique(s: Split)
    requires NewlineFree(s)
    ensures SplitLines(JoinLines(s.lines) + s.tail) == s
    decreases |s.lines|
  {
    if s.lines == [] {
      SplitFragment([], s.tail);
      assert JoinLines(s.lines) + s.tail == [] + s.tail;
    } else {
      var n := |s.lines| - 1;
      SplitIsUnique(Split(s.lines[..n], []));
      assert JoinLines(s.lines[..n]) + [] == JoinLines(s.lines[..n]);
      SplitNewline(JoinLines(s.lines[..n]), s.lines[n]);
      assert [] + s.lines[n] == s.lines[n];
      assert s.lines == s.lines[..n] + [s.lines[n]];
      SplitFragment(JoinLines(s.lines), s.tail);
      assert [] + s.tail == s.tail;
    }
  }

  function LineEvent(limit: Limit, line: JsString): Event {
    if Fits(limit, |line|) then Line(line) else Oversized(|line|)
  }

  function LineEvents(limit: Limit, lines: seq<JsString>): seq<Event> {
    seq(|lines|, i requires 0 <= i < |lines| => LineEvent(limit, lines[i]))
  }

  /** At the end of the stream a blank tail that fits is dropped. */
  function TailEvents(limit: Limit, tail: JsString): seq<Event> {
    if Fits(limit, |tail|) && Trim(tail) == [] then [] else [LineEvent(limit, tail)]
  }

  function AllEvents(limit: Limit, text: JsString): seq<Event> {
    var s := SplitLines(text);
    LineEvents(limit, s.lines) + TailEvents(limit, s.tail)
  }

  /** One callback for each complete line: the line if it has at most the given number of characters, else its length. */
  lemma EventOfLine(limit: Limit, text: JsString, k: nat)
    requires k < |SplitLines(text).lines|
    ensures k < |AllEvents(limit, text)|
    ensures var line := SplitLines(text).lines[k];
      AllEvents(limit, text)[k] ==
      if limit.AtMost? && |line| > limit.chars then Oversized(|line|) else Line(line)
  {}

  /** One more for the tail, unless it fits and is all white space. */
  lemma EventOfTail(limit: Limit, text: JsString)
    ensures var n, tail := |SplitLines(text).lines|, SplitLines(text).tail;
      var long := limit.AtMost? && |tail| > limit.chars;
      && |AllEvents(limit, text)| == n + (if !long && AllSpace(tail) then 0 else 1)
      && (|AllEvents(limit, text)| > n ==> AllEvents(limit, text)[n] == if long then Oversized(|tail|) else Line(tail))
  {
    var front, back := TrimExactly(SplitLines(text).tail);
  }

  // ----- Conservation -------------------------------------------------------------

  function Chars(events: seq<Event>): nat {
    if events == [] then 0
    else
      Chars(events[..|events| - 1]) +
      match events[|events| - 1] { case Line(t) => |t| case Oversized(n) => n }
  }

  function Newlines(text: JsString): nat {
    if text == [] then 0 else Newlines(text[..|text| - 1]) + if text[|text| - 1] == NEWLINE then 1 else 0
  }

  lemma CharsAppend(events: seq<Event>, e: Event)
    ensures Chars(events + [e]) == Chars(events) + match e { case Line(t) => |t| case Oversized(n) => n }
  {
    assert (events + [e])[..|events|] == events;
  }

  lemma {:induction false} LinesConserved(limit: Limit, text: JsString)
    ensures var s := SplitLines(text);
      |text| == Chars(LineEvents(limit, s.lines)) + Newlines(text) + |s.tail|
    decreases |text|
  {
    if text != [] {
      LinesConserved(limit, text[..|text| - 1]);
      var before := SplitLines(text[..|text| - 1]);
      if text[|text| - 1] == NEWLINE {
        assert LineEvents(limit, before.lines + [before.tail])
            == LineEvents(limit, before.lines) + [LineEvent(limit, before.tail)];
        CharsAppend(LineEvents(limit, before.lines), LineEvent(limit, before.tail));
      }
    }
  }

  /** Every character is in a reported line, is a newline, or belongs to the dropped blank tail. */
  lemma CharactersConserved(limit: Limit, text: JsString)
    ensures var tail := SplitLines(text).tail;
      |text| == Chars(AllEvents(limit, text)) + Newlines(text) +
                if TailEvents(limit, tail) == [] then |tail| else 0
  {
    var s := SplitLines(text);
    LinesConserved(limit, text);
    if TailEvents(limit, s.tail) == [] {
      assert AllEvents(limit, text) == LineEvents(limit, s.lines);
    } else {
      CharsAppend(LineEvents(limit, s.lines), LineEvent(limit, s.tail));
    }
  }
}

module LineDecoding {
  import opened Common
  import opened JsStrings
  import opened LineSpec

  /** `indexOf` for a newline, from a starting position; absent is -1. */
  method IndexOfNewline(text: JsString, start: nat) returns (at: int)
    requires start <= |text|
    ensures at == -1 <==> NEWLINE !in text[start..]
    ensures at != -1 ==> start <= at < |text| && text[at] == NEWLINE && NEWLINE !in text[start..at]
  {
    var i := start;
    while i < |text|
      invariant start <= i <= |text|
      invariant NEWLINE !in text[start..i]
    {
      if text[i] == NEWLINE {
        return i;
      }
      i := i + 1;
    }
    assert text[start..i] == text[start..];
    return -1;
  }

  lemma CutAtNewline(input: JsString, text: JsString, start: nat, at: nat)
    requires start <= at < |text| && text[at] == NEWLINE
    ensures input + text[..start] + text[start..at] + [NEWLINE] == input + text[..at + 1]
  {}

  lemma CutAtEnd(input: JsString, text: JsString, start: nat)
    requires start <= |text|
    ensures input + text[..start] + text[start..] + [] == input + text
  {}

  class LineDecoder {
    const limit: Limit
    var remainder: JsString
    var discardingOversizedLine: bool
    var discardedChars: nat
    var events: seq<Event>    // the callbacks made so far
    ghost var input: JsString   // everything consumed since the start of the stream

    /** The fields are determined by the text consumed so far, however it was cut into chunks. */
    ghost predicate Represents(text: JsString)
      reads this
    {
      var s := SplitLines(text);
      && events == LineEvents(limit, s.lines)
      && if Fits(limit, |s.tail|)
         then remainder == s.tail && !discardingOversizedLine && discardedChars == 0
         else remainder == [] && discardingOversizedLine && discardedChars == |s.tail|
    }

    ghost predicate Valid()
      reads this
    {
      Represents(input) && Fits(limit, |remainder|)
    }

    constructor (limit: Limit)
      ensures Valid() && input == [] && this.limit == limit && events == []
    {
      this.limit := limit;
      remainder := [];
      discardingOversizedLine := false;
      discardedChars := 0;
      events := [];
      input := [];
    }

    method ReportDiscard()
      modifies `discardedChars, `events
      ensures discardedChars == 0
      ensures events == old(events) + if old(discardedChars) == 0 then [] else [Oversized(old(discardedChars))]
    {
      if discardedChars == 0 {
        return;
      }
      var dropped := discardedChars;
      discardedChars := 0;
      events := events + [Oversized(dropped)];
    }

    /** One turn of the loop: the stretch up to a newline, or what is left of the chunk. */
    method ConsumeFragment(fragment: JsString, completeLine: bool, ghost before: JsString)
      requires Represents(before) && Fits(limit, |remainder|) && NEWLINE !in fragment
      modifies `remainder, `discardingOversizedLine, `discardedChars, `events
      ensures Represents(before + fragment + if completeLine then [NEWLINE] else [])
      ensures Fits(limit, |remainder|)
    {
      ghost var s := SplitLines(before);
      SplitFragment(before, fragment);
      SplitNewline(before, fragment);
      assert before + fragment + [] == before + fragment;
      assert LineEvents(limit, s.lines + [s.tail + fragment])
          == LineEvents(limit, s.lines) + [LineEvent(limit, s.tail + fragment)];
      if discardingOversizedLine {
        discardedChars := discardedChars + |fragment|;
        if completeLine {
          discardingOversizedLine := false;
          ReportDiscard();
        }
      } else if !Fits(limit, |remainder| + |fragment|) {
        discardedChars := discardedChars + |remainder| + |fragment|;
        remainder := [];
        discardingOversizedLine := !completeLine;
        if completeLine {
          ReportDiscard();
        }
      } else if completeLine {
        events := events + [Line(remainder + fragment)];
        remainder := [];
      } else {
        remainder := remainder + fragment;
      }
    }

    method Consume(text: JsString)
      requires Valid()
      modifies `remainder, `discardingOversizedLine, `discardedChars, `events, `input
      ensures Valid() && input == old(input) + text
      ensures limit.AtMost? ==> |remainder| <= limit.chars
    {
      var start := 0;
      ghost var before := input;
      input := input + text;
      assert before + text[..0] == before;
      while start <= |text|
        invariant 0 <= start <= |text| && input == before + text
        invariant Represents(before + text[..start]) && Fits(limit, |remainder|)
        decreases |text| - start
      {
        var newline := IndexOfNewline(text, start);
        if newline == -1 {
          CutAtEnd(before, text, start);
          ConsumeFragment(text[start..], false, before + text[..start]);
          return;
        }
        CutAtNewline(before, text, start, newline);
        ConsumeFragment(text[start..newline], true, before + text[..start]);
        start := newline + 1;
      }
    }

    /** The end of the stream: all callbacks made are those the whole text calls for. */
    method Flush()
      requires Valid()
      modifies this
      ensures events == AllEvents(limit, old(input))
      ensures remainder == [] && !discardingOversizedLine && discardedChars == 0
    {
      if !discardingOversizedLine && Trim(remainder) != [] {
        events := events + [Line(remainder)];
      }
      remainder := [];
      discardingOversizedLine := false;
      ReportDiscard();
    }
  }

  /** The stream that the chunks make up. */
  function Whole<T>(chunks: seq<seq<T>>): seq<T> {
    if chunks == [] then [] else Whole(Init(chunks)) + Last(chunks)
  }

  /** A stream delivered in any chunks and then ended. */
  method DecodeStream(limit: Limit, chunks: seq<JsString>) returns (events: seq<Event>)
    ensures events == AllEvents(limit, Whole(chunks))
  {
    var decoder := new LineDecoder(limit);
    for i := 0 to |chunks|
      invariant decoder.Valid() && decoder.limit == limit && decoder.input == Whole(chunks[..i])
      invariant fresh(decoder)
    {
      decoder.Consume(chunks[i]);
      assert Init(chunks[..i + 1]) == chunks[..i];
    }
    assert chunks[..|chunks|] == chunks;
    decoder.Flush();
    events := decoder.events;
  }

  // ----- The bounded stderr tail ----------------------------------------------------

  function AppendBoundedTail<T>(current: seq<T>, chunk: seq<T>, limit: nat): seq<T> {
    if limit == 0 then []
    else
      var combined := current + chunk;
      if |combined| <= limit then combined else combined[|combined| - limit..]
  }

  function LastOf<T>(s: seq<T>, limit: nat): seq<T> {
    if |s| <= limit then s else s[|s| - limit..]
  }

  /** What stands before the last `limit` elements does not matter. */
  lemma DropInFront<T>(front: seq<T>, s: seq<T>, limit: nat)
    requires |s| >= limit
    ensures LastOf(front + s, limit) == s[|s| - limit..]
  {
    var whole := front + s;
    assert |whole| == |front| + |s|;
    assert whole[|whole| - limit..] == s[|s| - limit..];
  }

  lemma AppendIsLast<T>(current: seq<T>, chunk: seq<T>, limit: nat)
    ensures AppendBoundedTail(current, chunk, limit) == LastOf(current + chunk, limit)
  {}

  /** One more chunk: what was cut off before does not matter. */
  lemma AppendAfterCut<T>(before: seq<T>, chunk: seq<T>, limit: nat)
    ensures AppendBoundedTail(LastOf(before, limit), chunk, limit) == LastOf(before + chunk, limit)
  {
    var kept := LastOf(before, limit);
    AppendIsLast(kept, chunk, limit);
    if |before| > limit {
      var front := before[..|before| - limit];
      assert before == front + kept;
      assert before + chunk == front + (kept + chunk);
      DropInFront(front, kept + chunk, limit);
    }
  }

  /** The tail kept over a stream of chunks. */
  function TailOf<T>(chunks: seq<seq<T>>, limit: nat): seq<T> {
    if chunks == [] then [] else AppendBoundedTail(TailOf(Init(chunks), limit), Last(chunks), limit)
  }

  /** Cutting after every chunk keeps what cutting the whole stream once at its end would keep. */
  lemma {:induction false} BoundedTailIsLast<T>(chunks: seq<seq<T>>, limit: nat)
    ensures TailOf(chunks, limit) == LastOf(Whole(chunks), limit)
    ensures var n := if |Whole(chunks)| < limit then |Whole(chunks)| else limit;
      |TailOf(chunks, limit)| == n && TailOf(chunks, limit) == Whole(chunks)[|Whole(chunks)| - n..]
    decreases |chunks|
  {
    if chunks != [] {
      BoundedTailIsLast(Init(chunks), limit);
      AppendAfterCut(Whole(Init(chunks)), Last(chunks), limit);
    }
  }
}
