/**
 The tag stack of the HTML check: start tags are pushed, an end tag pops down to its start tag and
 reports what it passes over.  Void elements are ignored in both directions.
 */
module HtmlTags {
  type Tag = string

  datatype Event = Start(tag: Tag) | End(tag: Tag)

  datatype Error = NotClosed(tag: Tag) | NoOpening(tag: Tag)

  const VOID: set<Tag> := {"area", "base", "br", "col", "embed", "hr", "img", "input", "link", "meta",
                           "source", "track", "wbr"}

  /** Tags that may be left open at the end of a page. */
  const OPTIONAL: set<Tag> := {"html", "body", "head", "p", "li"}

  datatype State = State(stack: seq<Tag>, errors: seq<Error>)

  // ---------------------------------------------------------------- the parser's two handlers

  /** Pop down to the nearest `tag`, reporting each tag passed over. */
  function CloseDown(stack: seq<Tag>, errors: seq<Error>, tag: Tag): State
    requires tag in stack
  {
    var top := stack[|stack| - 1];
    if top == tag then State(stack[..|stack| - 1], errors)
    else
      assert stack == stack[..|stack| - 1] + [top];
      CloseDown(stack[..|stack| - 1], errors + [NotClosed(top)], tag)
  }

  function Handle(s: State, event: Event): State {
    if event.tag in VOID then s
    else match event
      case Start(tag) => s.(stack := s.stack + [tag])
      case End(tag) =>
        if tag in s.stack then CloseDown(s.stack, s.errors, tag)
        else s.(errors := s.errors + [NoOpening(tag)])
  }

  class Tags {
    var stack: seq<Tag>
    var errors: seq<Error>

    ghost function Current(): State
      reads this
    {
      State(stack, errors)
    }

    constructor ()
      ensures Current() == State([], [])
    {
      stack, errors := [], [];
    }

    method HandleStartTag(tag: Tag)
      modifies this
      ensures Current() == Handle(old(Current()), Start(tag))
    {
      if tag !in VOID {
        stack := stack + [tag];
      }
    }

    method HandleEndTag(tag: Tag)
      modifies this
      ensures Current() == Handle(old(Current()), End(tag))
    {
      if tag in VOID {
        return;
      }
      if tag in stack {
        while stack != [] && stack[|stack| - 1] != tag
          invariant tag in stack
          invariant CloseDown(stack, errors, tag) == CloseDown(old(stack), old(errors), tag)
          decreases |stack|
        {
          assert stack == stack[..|stack| - 1] + [stack[|stack| - 1]];
          errors := errors + [NotClosed(stack[|stack| - 1])];
          stack := stack[..|stack| - 1];
        }
        stack := stack[..|stack| - 1];
      } else {
        errors := errors + [NoOpening(tag)];
      }
    }
  }

  /** The page's events, handled one after another. */
  ghost function Run(s: State, events: seq<Event>): State {
    if events == [] then s else Handle(Run(s, events[..|events| - 1]), events[|events| - 1])
  }

  ghost function Parsed(events: seq<Event>): State {
    Run(State([], []), events)
  }

  /** The verdict of the check: no error, and only optional tags left open. */
  ghost predicate WellFormed(events: seq<Event>) {
    Parsed(events).errors == [] && forall t :: t in Parsed(events).stack ==> t in OPTIONAL
  }

  // ---------------------------------------------------------------- balanced pages, independently

  /** Elements side by side, each with its content. */
  datatype Forest = Nil | Element(tag: Tag, content: Forest, next: Forest)

  ghost function Word(f: Forest): seq<Event> {
    match f
    case Nil => []
    case Element(tag, content, next) => [Start(tag)] + Word(content) + [End(tag)] + Word(next)
  }

  ghost function NonVoid(events: seq<Event>): seq<Event> {
    if events == [] then []
    else
      var last := events[|events| - 1];
      NonVoid(events[..|events| - 1]) + (if last.tag in VOID then [] else [last])
  }

  ghost predicate Balanced(events: seq<Event>) {
    exists f :: Word(f) == NonVoid(events)
  }

  // ---------------------------------------------------------------- balanced pages run clean

  lemma {:induction false} RunConcat(s: State, a: seq<Event>, b: seq<Event>)
    ensures Run(s, a + b) == Run(Run(s, a), b)
  {
    if b == [] {
      assert a + b == a;
    } else {
      assert (a + b)[..|a + b| - 1] == a + b[..|b| - 1];
      RunConcat(s, a, b[..|b| - 1]);
    }
  }

  lemma RunOne(s: State, event: Event)
    ensures Run(s, [event]) == Handle(s, event)
  {
    assert [event][..0] == [];
    assert Run(s, [event][..0]) == s;
  }

  lemma {:induction false} RunNonVoid(s: State, events: seq<Event>)
    ensures Run(s, NonVoid(events)) == Run(s, events)
    ensures forall e :: e in NonVoid(events) ==> e.tag !in VOID
  {
    if events != [] {
      var init, last := events[..|events| - 1], events[|events| - 1];
      RunNonVoid(s, init);
      if last.tag !in VOID {
        RunConcat(s, NonVoid(init), [last]);
        RunOne(Run(s, NonVoid(init)), last);
      } else {
        assert NonVoid(events) == NonVoid(init);
      }
    }
  }

  /** A balanced word leaves every state as it was. */
  lemma {:induction false} RunWord(s: State, f: Forest)
    requires forall e :: e in Word(f) ==> e.tag !in VOID
    ensures Run(s, Word(f)) == s
    decreases f
  {
    match f
    case Nil =>
    case Element(tag, content, next) =>
      assert Word(f)[0] == Start(tag);
      var inside := s.(stack := s.stack + [tag]);
      RunWord(inside, content);
      RunWord(s, next);
      RunParts(s, Start(tag), Word(content), End(tag), Word(next));
      assert Handle(s, Start(tag)) == inside;
      assert Handle(inside, End(tag)) == s;
  }

  lemma RunParts(s: State, first: Event, middle: seq<Event>, last: Event, rest: seq<Event>)
    ensures Run(s, [first] + middle + [last] + rest) == Run(Handle(Run(Handle(s, first), middle), last), rest)
  {
    RunOne(s, first);
    RunConcat(s, [first], middle);
    RunConcat(s, [first] + middle, [last]);
    RunOne(Run(s, [first] + middle), last);
    RunConcat(s, [first] + middle + [last], rest);
  }

  // ---------------------------------------------------------------- clean runs are balanced

  ghost function Append(f: Forest, g: Forest): Forest {
    match f
    case Nil => g
    case Element(tag, content, next) => Element(tag, content, Append(next, g))
  }

  lemma {:induction false} WordAppend(f: Forest, g: Forest)
    ensures Word(Append(f, g)) == Word(f) + Word(g)
  {
    match f
    case Nil =>
    case Element(tag, content, next) => WordAppend(next, g);
  }

  /** The word read so far: complete elements, an open tag, complete elements inside it, and so on. */
  ghost function Spine(done: seq<Forest>, stack: seq<Tag>): seq<Event>
    requires |done| == |stack| + 1
    decreases |stack|
  {
    var k := |stack|;
    if k == 0 then Word(done[0])
    else Spine(done[..k], stack[..k - 1]) + [Start(stack[k - 1])] + Word(done[k])
  }

  lemma {:induction false} ErrorsGrow(s: State, event: Event)
    ensures s.errors <= Handle(s, event).errors
    ensures event.tag !in VOID && event.End? && Handle(s, event).errors == s.errors ==>
              s.stack != [] && s.stack[|s.stack| - 1] == event.tag && Handle(s, event).stack == s.stack[..|s.stack| - 1]
  {
    if event.tag !in VOID && event.End? && event.tag in s.stack {
      CloseDownErrors(s.stack, s.errors, event.tag);
    }
  }

  lemma {:induction false} CloseDownErrors(stack: seq<Tag>, errors: seq<Error>, tag: Tag)
    requires tag in stack
    ensures errors <= CloseDown(stack, errors, tag).errors
    ensures CloseDown(stack, errors, tag).errors == errors ==> stack[|stack| - 1] == tag
    decreases |stack|
  {
    var top := stack[|stack| - 1];
    if top != tag {
      assert stack == stack[..|stack| - 1] + [top];
      CloseDownErrors(stack[..|stack| - 1], errors + [NotClosed(top)], tag);
    }
  }

  /** A run without errors is a spine over the tags still open. */
  lemma {:induction false} CleanRunIsSpine(events: seq<Event>) returns (done: seq<Forest>)
    requires Parsed(events).errors == []
    ensures |done| == |Parsed(events).stack| + 1
    ensures Spine(done, Parsed(events).stack) == NonVoid(events)
  {
    if events == [] {
      done := [Nil];
    } else {
      var init, last := events[..|events| - 1], events[|events| - 1];
      var s := Parsed(init);
      ErrorsGrow(s, last);
      done := CleanRunIsSpine(init);
      var k := |s.stack|;
      if last.tag !in VOID {
        if last.Start? {
          assert (done + [Nil])[..k + 1] == done;
          assert (s.stack + [last.tag])[..k] == s.stack;
          done := done + [Nil];
        } else {
          done := CloseSpine(done, s.stack);
        }
      }
    }
  }

  /** Closing the innermost open tag makes it a complete element of the one around it. */
  lemma CloseSpine(done: seq<Forest>, stack: seq<Tag>) returns (closed: seq<Forest>)
    requires |done| == |stack| + 1 && stack != []
    ensures |closed| == |stack|
    ensures Spine(closed, stack[..|stack| - 1]) == Spine(done, stack) + [End(stack[|stack| - 1])]
  {
    var k := |stack|;
    var tag, element := stack[k - 1], Element(stack[k - 1], done[k], Nil);
    closed := ExtendSpine(done[..k], stack[..k - 1], element);
    assert Word(element) == [Start(tag)] + Word(done[k]) + [End(tag)];
  }

  /** One more complete element at the end of the word. */
  lemma ExtendSpine(done: seq<Forest>, stack: seq<Tag>, element: Forest) returns (longer: seq<Forest>)
    requires |done| == |stack| + 1
    ensures |longer| == |done| && Spine(longer, stack) == Spine(done, stack) + Word(element)
  {
    var k := |stack|;
    longer := done[..k] + [Append(done[k], element)];
    WordAppend(done[k], element);
    assert longer[..k] == done[..k];
  }

  /** Nothing is reported and nothing is left open exactly when the page is balanced. */
  lemma CleanIffBalanced(events: seq<Event>)
    ensures Parsed(events) == State([], []) <==> Balanced(events)
  {
    if Parsed(events) == State([], []) {
      var done := CleanRunIsSpine(events);
      assert Word(done[0]) == NonVoid(events);
    }
    if Balanced(events) {
      var f :| Word(f) == NonVoid(events);
      RunNonVoid(State([], []), events);
      RunWord(State([], []), f);
    }
  }

  // ---------------------------------------------------------------- the verdict

  ghost function Ends(tags: seq<Tag>): seq<Event> {
    seq(|tags|, i requires 0 <= i < |tags| => End(tags[i]))
  }

  ghost function Reversed(tags: seq<Tag>): seq<Tag> {
    if tags == [] then [] else [tags[|tags| - 1]] + Reversed(tags[..|tags| - 1])
  }

  lemma {:induction false} InReversed(tags: seq<Tag>)
    ensures forall t :: t in Reversed(tags) <==> t in tags
  {
    if tags != [] {
      var init := tags[..|tags| - 1];
      InReversed(init);
      assert tags == init + [tags[|tags| - 1]];
    }
  }

  /** Closing everything that is open, innermost first, is clean. */
  lemma {:induction false} CloseAll(s: State)
    requires forall t :: t in s.stack ==> t !in VOID
    ensures Run(s, Ends(Reversed(s.stack))) == s.(stack := [])
    decreases |s.stack|
  {
    if s.stack != [] {
      var init, top := s.stack[..|s.stack| - 1], s.stack[|s.stack| - 1];
      CloseAll(s.(stack := init));
      RunOne(s, End(top));
      assert Ends(Reversed(s.stack)) == [End(top)] + Ends(Reversed(init));
      RunConcat(s, [End(top)], Ends(Reversed(init)));
    }
  }

  /** Only end tags, without an error: they closed exactly what was open above the rest, innermost first. */
  lemma {:induction false} ClosedBy(s: State, closers: seq<Tag>, rest: seq<Tag>)
    requires forall t :: t in closers ==> t !in VOID
    requires Run(s, Ends(closers)) == State(rest, [])
    ensures s == State(rest + Reversed(closers), [])
    decreases |closers|
  {
    if closers == [] {
      assert Ends(closers) == [];
    } else {
      var init, last := closers[..|closers| - 1], closers[|closers| - 1];
      RunEnds(s, init, last, closers);
      LastCloser(Run(s, Ends(init)), last, rest);
      ClosedBy(s, init, rest + [last]);
      OneDeeper(rest, init, last, closers);
    }
  }

  lemma OneDeeper(rest: seq<Tag>, init: seq<Tag>, last: Tag, closers: seq<Tag>)
    requires closers == init + [last]
    ensures rest + [last] + Reversed(init) == rest + Reversed(closers)
  {
    assert closers[..|closers| - 1] == init;
  }

  lemma RunEnds(s: State, init: seq<Tag>, last: Tag, closers: seq<Tag>)
    requires closers == init + [last]
    ensures Run(s, Ends(closers)) == Handle(Run(s, Ends(init)), End(last))
  {
    assert Ends(closers) == Ends(init) + [End(last)];
    RunConcat(s, Ends(init), [End(last)]);
    RunOne(Run(s, Ends(init)), End(last));
  }

  lemma LastCloser(before: State, last: Tag, rest: seq<Tag>)
    requires last !in VOID && Handle(before, End(last)) == State(rest, [])
    ensures before == State(rest + [last], [])
  {
    ErrorsGrow(before, End(last));
    assert before.stack == rest + [last];
  }

  lemma {:induction false} StackNonVoid(events: seq<Event>)
    ensures forall t :: t in Parsed(events).stack ==> t !in VOID
  {
    if events != [] {
      var init, last := events[..|events| - 1], events[|events| - 1];
      StackNonVoid(init);
      if last.End? && last.tag !in VOID && last.tag in Parsed(init).stack {
        CloseDownStack(Parsed(init).stack, Parsed(init).errors, last.tag);
      }
    }
  }

  lemma {:induction false} CloseDownStack(stack: seq<Tag>, errors: seq<Error>, tag: Tag)
    requires tag in stack
    ensures CloseDown(stack, errors, tag).stack <= stack
    decreases |stack|
  {
    var top := stack[|stack| - 1];
    if top != tag {
      assert stack == stack[..|stack| - 1] + [top];
      CloseDownStack(stack[..|stack| - 1], errors + [NotClosed(top)], tag);
    }
  }

  lemma OptionalNotVoid(t: Tag)
    requires t in OPTIONAL
    ensures t !in VOID
  {
    assert |t| == 4 || |t| == 2 || |t| == 1;
  }

  ghost predicate OnlyOptional(tags: seq<Tag>) {
    forall t :: t in tags ==> t == "html" || t == "body" || t == "head" || t == "p" || t == "li"
  }

  /**
   The check passes exactly the pages that closing some of five optional tags at the very end would
   make balanced.
   */
  lemma WellFormedIff(events: seq<Event>)
    ensures WellFormed(events) <==> exists closers :: OnlyOptional(closers) && Balanced(events + Ends(closers))
  {
    if WellFormed(events) {
      WellFormedClosed(events);
    }
    forall closers | OnlyOptional(closers) && Balanced(events + Ends(closers)) ensures WellFormed(events) {
      ClosedWellFormed(events, closers);
    }
  }

  lemma WellFormedClosed(events: seq<Event>)
    requires WellFormed(events)
    ensures OnlyOptional(Reversed(Parsed(events).stack)) && Balanced(events + Ends(Reversed(Parsed(events).stack)))
  {
    var s := Parsed(events);
    var closers := Reversed(s.stack);
    ReversedOptional(s.stack);
    StackNonVoid(events);
    CloseAll(s);
    RunConcat(State([], []), events, Ends(closers));
    CleanIffBalanced(events + Ends(closers));
  }

  lemma ReversedOptional(stack: seq<Tag>)
    requires forall t :: t in stack ==> t in OPTIONAL
    ensures OnlyOptional(Reversed(stack))
  {
    InReversed(stack);
  }

  lemma ClosedWellFormed(events: seq<Event>, closers: seq<Tag>)
    requires OnlyOptional(closers) && Balanced(events + Ends(closers))
    ensures WellFormed(events)
  {
    forall t | t in closers ensures t !in VOID { OptionalNotVoid(t); }
    CleanIffBalanced(events + Ends(closers));
    RunConcat(State([], []), events, Ends(closers));
    ClosedBy(Parsed(events), closers, []);
    InReversed(closers);
  }

  // ---------------------------------------------------------------- tag by tag

  /** A tag of a void element leaves no trace, wherever it stands and whether it opens or closes. */
  lemma VoidIgnored(before: seq<Event>, e: Event, after: seq<Event>)
    requires e.tag == "area" || e.tag == "base" || e.tag == "br" || e.tag == "col" || e.tag == "embed" ||
             e.tag == "hr" || e.tag == "img" || e.tag == "input" || e.tag == "link" || e.tag == "meta" ||
             e.tag == "source" || e.tag == "track" || e.tag == "wbr"
    ensures Parsed(before + [e] + after) == Parsed(before + after)
  {
    var s := State([], []);
    RunConcat(s, before + [e], after);
    RunConcat(s, before, [e]);
    RunOne(Parsed(before), e);
    RunConcat(s, before, after);
  }

  /** Any other start tag is pushed. */
  lemma OtherPushed(events: seq<Event>, tag: Tag)
    requires tag != "area" && tag != "base" && tag != "br" && tag != "col" && tag != "embed" && tag != "hr" &&
             tag != "img" && tag != "input" && tag != "link" && tag != "meta" && tag != "source" &&
             tag != "track" && tag != "wbr"
    ensures Parsed(events + [Start(tag)]) == Parsed(events).(stack := Parsed(events).stack + [tag])
  {
    RunConcat(State([], []), events, [Start(tag)]);
    RunOne(Parsed(events), Start(tag));
  }

  /** What an end tag reports when it passes over open tags: each of them, innermost first. */
  ghost function Passed(above: seq<Tag>): (errors: seq<Error>)
    ensures |errors| == |above|
  {
    seq(|above|, i requires 0 <= i < |above| => NotClosed(above[|above| - 1 - i]))
  }

  lemma {:induction false} CloseDownIs(below: seq<Tag>, tag: Tag, above: seq<Tag>, errors: seq<Error>)
    requires tag !in above
    ensures CloseDown(below + [tag] + above, errors, tag) == State(below, errors + Passed(above))
    decreases |above|
  {
    var stack := below + [tag] + above;
    if above == [] {
      assert stack == below + [tag] && errors + Passed(above) == errors;
    } else {
      var init, top := above[..|above| - 1], above[|above| - 1];
      assert stack[..|stack| - 1] == below + [tag] + init;
      CloseDownIs(below, tag, init, errors + [NotClosed(top)]);
      assert errors + [NotClosed(top)] + Passed(init) == errors + Passed(above);
    }
  }

  /** An end tag closes its nearest start tag and reports exactly the tags above it, innermost first. */
  lemma EndCloses(events: seq<Event>, below: seq<Tag>, tag: Tag, above: seq<Tag>)
    requires Parsed(events).stack == below + [tag] + above && tag !in above
    ensures Parsed(events + [End(tag)]) == State(below, Parsed(events).errors + Passed(above))
  {
    StackNonVoid(events);
    assert (below + [tag] + above)[|below|] == tag;
    RunConcat(State([], []), events, [End(tag)]);
    RunOne(Parsed(events), End(tag));
    CloseDownIs(below, tag, above, Parsed(events).errors);
  }

  /** An end tag whose start tag is not open is reported itself. */
  lemma EndReported(events: seq<Event>, tag: Tag)
    requires tag !in Parsed(events).stack
    requires tag != "area" && tag != "base" && tag != "br" && tag != "col" && tag != "embed" && tag != "hr" &&
             tag != "img" && tag != "input" && tag != "link" && tag != "meta" && tag != "source" &&
             tag != "track" && tag != "wbr"
    ensures Parsed(events + [End(tag)]) == Parsed(events).(errors := Parsed(events).errors + [NoOpening(tag)])
  {
    RunConcat(State([], []), events, [End(tag)]);
    RunOne(Parsed(events), End(tag));
  }

  // ---------------------------------------------------------------- nothing is reported twice or lost

  ghost function Starts(events: seq<Event>): nat {
    if events == [] then 0
    else
      var last := events[|events| - 1];
      Starts(events[..|events| - 1]) + (if last.Start? && last.tag !in VOID then 1 else 0)
  }

  /** End tags that find their start tag open. */
  ghost function Matched(events: seq<Event>): nat {
    if events == [] then 0
    else
      var init, last := events[..|events| - 1], events[|events| - 1];
      Matched(init) + (if last.End? && last.tag !in VOID && last.tag in Parsed(init).stack then 1 else 0)
  }

  ghost function EndCount(events: seq<Event>): nat {
    if events == [] then 0
    else
      var last := events[|events| - 1];
      EndCount(events[..|events| - 1]) + (if last.End? && last.tag !in VOID then 1 else 0)
  }

  ghost function Unclosed(errors: seq<Error>): nat {
    if errors == [] then 0 else Unclosed(errors[..|errors| - 1]) + (if errors[|errors| - 1].NotClosed? then 1 else 0)
  }

  lemma {:induction false} CloseDownCounts(stack: seq<Tag>, errors: seq<Error>, tag: Tag)
    requires tag in stack
    ensures var s := CloseDown(stack, errors, tag);
      && |stack| + |errors| == |s.stack| + |s.errors| + 1
      && Unclosed(s.errors) - Unclosed(errors) == |s.errors| - |errors|
    decreases |stack|
  {
    var top := stack[|stack| - 1];
    if top != tag {
      assert stack == stack[..|stack| - 1] + [top];
      var longer := errors + [NotClosed(top)];
      assert longer[..|longer| - 1] == errors;
      CloseDownCounts(stack[..|stack| - 1], longer, tag);
    }
  }

  /**
   Every start tag is closed by its end tag, reported, or still open; every end tag closes its start
   tag or is reported.
   */
  lemma {:induction false} Accounting(events: seq<Event>)
    ensures var s := Parsed(events);
      && Starts(events) == Matched(events) + Unclosed(s.errors) + |s.stack|
      && EndCount(events) == Matched(events) + (|s.errors| - Unclosed(s.errors))
  {
    if events != [] {
      var init, last := events[..|events| - 1], events[|events| - 1];
      Accounting(init);
      var s := Parsed(init);
      if last.End? && last.tag !in VOID {
        if last.tag in s.stack {
          CloseDownCounts(s.stack, s.errors, last.tag);
        } else {
          var longer := s.errors + [NoOpening(last.tag)];
          assert longer[..|longer| - 1] == s.errors;
        }
      }
    }
  }
}
