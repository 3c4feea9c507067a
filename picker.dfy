/** The interaction loop of `main`: the catalog, the query, the filtered view and the
    selection cursor, and how each terminal event changes them. */
module Picker {
  import opened Subsequences
  import opened Matcher
  import Slices
  import opened QueryBuffer

  /** The key codes the event switch tells apart; every other code takes the default branch. */
  datatype Key = CtrlQ | ArrowUp | ArrowDown | Enter | Backspace | Backspace2 | Esc | CtrlW | Space | OtherKey

  /** One polled event. A key event carries its key code and its character (NoRune when it
      has none); events of any other type are ignored by the loop. */
  datatype Event = KeyEvent(key: Key, ch: char) | OtherEvent

  /** One turn of the loop: the terminal height read before painting, then the event polled. */
  datatype Frame = Frame(height: int, event: Event)

  /** What one event leads to: keep looping, hand a note to the editor and keep looping,
      leave the loop, or the run-time panic of indexing `filtered` out of range. */
  datatype Outcome = Continue | Open(note: string) | Exit | OutOfRange

  /** How a run of the loop over a finite list of frames ended. */
  datatype Status = Waiting | Quit | Crashed

  predicate IsKey(ev: Event, k: Key)
  {
    ev.KeyEvent? && ev.key == k
  }

  /** The number of Enter key events among `frames`. */
  function EnterCount(frames: seq<Frame>): nat
  {
    if frames == [] then 0
    else (if IsKey(frames[0].event, Enter) then 1 else 0) + EnterCount(frames[1..])
  }

  /** The part of the loop's state that events change, as a value: the query text and the
      cursor. The listed notes are not part of it: in every reachable state they are the
      catalog filtered by the query (see `Session.Valid`). */
  datatype Screen = Screen(text: string, selection: int)

  /** The cursor is never past the last listed note (on an empty list it may be 0 or below). */
  predicate CursorNotPast(notes: seq<string>, s: Screen)
  {
    s.selection <= 0 || s.selection < |View(notes, s.text)|
  }

  /** Whenever something is listed, the cursor designates one of the listed notes. */
  predicate Designates(notes: seq<string>, s: Screen)
  {
    View(notes, s.text) != [] ==> 0 <= s.selection < |View(notes, s.text)|
  }

  /** The event switch on a state value: the new state and what the event leads to. Every
      query edit puts the cursor back on the first row. */
  function Next(notes: seq<string>, s: Screen, ev: Event, height: int): (Screen, Outcome)
  {
    match ev
    case OtherEvent => (s, Continue)
    case KeyEvent(key, ch) =>
      match key
      case CtrlQ => (s, Exit)
      case ArrowUp =>
        (s.(selection := if s.selection - 1 < 0 then 0 else s.selection - 1), Continue)
      case ArrowDown =>
        var up := s.selection + 1;
        var count := |View(notes, s.text)|;
        var inList := if up > count - 1 then count - 1 else up;
        (s.(selection := if inList > height - 2 then height - 2 else inList), Continue)
      case Enter =>
        var filtered := View(notes, s.text);
        if |filtered| == 0 then (s, Continue)
        else if 0 <= s.selection < |filtered| then (s, Open(filtered[s.selection]))
        else (s, OutOfRange)
      case Backspace | Backspace2 =>
        if |s.text| == 0 then (s, Continue)
        else (Screen(s.text[..|s.text| - 1], 0), Continue)
      case Esc | CtrlW =>
        if |s.text| == 0 then (s, Continue) else (Screen([], 0), Continue)
      case Space => (Screen(s.text + [' '], 0), Continue)
      case OtherKey =>
        if ch == NoRune then (s, Continue) else (Screen(s.text + [ch], 0), Continue)
  }

  /** How a run over a list of frames ends: the final state, the notes handed to the editor
      in order, the status, and the index of the frame where the run stopped (the number of
      frames when they ran out). */
  datatype Replay = Replay(screen: Screen, edited: seq<string>, status: Status, stop: nat)

  /** The main loop on a state value: apply `Next` frame by frame, collect the opened notes,
      and stop at the first exit or out-of-range panic. */
  function RunFrom(notes: seq<string>, s: Screen, frames: seq<Frame>): (r: Replay)
    ensures r.stop <= |frames| && (r.status == Waiting <==> r.stop == |frames|)
    decreases |frames|
  {
    if frames == [] then Replay(s, [], Waiting, 0)
    else
      var (t, out) := Next(notes, s, frames[0].event, frames[0].height);
      match out
      case Exit => Replay(t, [], Quit, 0)
      case OutOfRange => Replay(t, [], Crashed, 0)
      case Open(note) =>
        var r := RunFrom(notes, t, frames[1..]);
        r.(edited := [note] + r.edited, stop := r.stop + 1)
      case Continue =>
        var r := RunFrom(notes, t, frames[1..]);
        r.(stop := r.stop + 1)
  }

  /** A run that had already gone through `done` frames and opened `edited` before
      continuing as `r`. */
  function Resume(edited: seq<string>, done: nat, r: Replay): Replay
  {
    r.(edited := edited + r.edited, stop := done + r.stop)
  }

  /** One more frame of a run under way: how `Resume` moves on with the outcome of `Next`. */
  lemma ResumeStep(notes: seq<string>, s0: Screen, frames: seq<Frame>, i: nat, edited: seq<string>,
                   s: Screen, t: Screen, out: Outcome)
    requires i < |frames| && (t, out) == Next(notes, s, frames[i].event, frames[i].height)
    requires RunFrom(notes, s0, frames) == Resume(edited, i, RunFrom(notes, s, frames[i..]))
    ensures out == Exit ==> RunFrom(notes, s0, frames) == Replay(t, edited, Quit, i)
    ensures out == OutOfRange ==> RunFrom(notes, s0, frames) == Replay(t, edited, Crashed, i)
    ensures out.Open? ==>
      RunFrom(notes, s0, frames) == Resume(edited + [out.note], i + 1, RunFrom(notes, t, frames[i + 1..]))
    ensures out == Continue ==>
      RunFrom(notes, s0, frames) == Resume(edited, i + 1, RunFrom(notes, t, frames[i + 1..]))
  {
    assert frames[i..][0] == frames[i] && frames[i..][1..] == frames[i + 1..];
    if out.Open? {
      var r := RunFrom(notes, t, frames[i + 1..]);
      assert edited + ([out.note] + r.edited) == (edited + [out.note]) + r.edited;
    }
  }

  /** Only Ctrl-Q leaves the loop, and only Enter opens a note or indexes out of range. */
  lemma NextOutcome(notes: seq<string>, s: Screen, ev: Event, height: int)
    ensures var out := Next(notes, s, ev, height).1;
      && (out == Exit <==> IsKey(ev, CtrlQ))
      && (out.Open? || out == OutOfRange ==> IsKey(ev, Enter))
  {
  }

  /** What each key does to the state value: the exit key changes nothing, the arrows move
      only the cursor, Enter opens the note under the cursor, Backspace and Esc/Ctrl-W do
      nothing on an empty query, typed runes (other than rune 0) are appended, and every
      edit puts the cursor on the first row. */
  lemma NextByKey(notes: seq<string>, s: Screen, ev: Event, height: int)
    requires CursorNotPast(notes, s)
    ensures var (t, out) := Next(notes, s, ev, height);
      && (!IsKey(ev, ArrowUp) && !IsKey(ev, ArrowDown) && t.text == s.text ==> t.selection == s.selection || t.selection == 0)
      && (IsKey(ev, ArrowUp) ==>
            && t.text == s.text && t.selection >= 0
            && (s.selection >= 1 ==> t.selection == s.selection - 1)
            && (s.selection <= 0 ==> t.selection == 0))
      && (IsKey(ev, ArrowDown) ==>
            && t.text == s.text
            && t.selection <= |View(notes, s.text)| - 1 && t.selection <= height - 2
            && t.selection <= s.selection + 1
            && (t.selection == s.selection + 1 || t.selection == |View(notes, s.text)| - 1 || t.selection == height - 2))
      && (IsKey(ev, Enter) ==>
            && t == s
            && (View(notes, s.text) == [] ==> out == Continue)
            && (View(notes, s.text) != [] && s.selection >= 0 ==> out == Open(View(notes, s.text)[s.selection]))
            && (View(notes, s.text) != [] && s.selection < 0 ==> out == OutOfRange))
      && (IsKey(ev, Backspace) || IsKey(ev, Backspace2) ==>
            (if s.text == [] then t == s else t == Screen(s.text[..|s.text| - 1], 0)))
      && (IsKey(ev, Esc) || IsKey(ev, CtrlW) ==> (if s.text == [] then t == s else t == Screen([], 0)))
      && (IsKey(ev, Space) ==> t == Screen(s.text + [' '], 0))
      && (IsKey(ev, OtherKey) ==> (if ev.ch == NoRune then t == s else t == Screen(s.text + [ev.ch], 0)))
  {
  }

  /** Every event keeps the cursor not past the end of the list, and an opened note is a
      catalog note the query is a subsequence of. */
  lemma NextKeepsCursor(notes: seq<string>, s: Screen, ev: Event, height: int)
    requires CursorNotPast(notes, s)
    ensures CursorNotPast(notes, Next(notes, s, ev, height).0)
    ensures var out := Next(notes, s, ev, height).1;
      out.Open? ==> out.note in notes && IsSubsequence(s.text, out.note)
  {
    if IsKey(ev, Enter) {
      var out := Next(notes, s, ev, height).1;
      if out.Open? {
        ViewMembers(notes, s.text, out.note);
      }
    }
  }

  /** The cursor keeps designating a listed note unless ArrowDown meets a terminal under two
      rows; and the out-of-range panic needs a cursor that designates nothing. */
  lemma NextKeepsDesignates(notes: seq<string>, s: Screen, ev: Event, height: int)
    requires Designates(notes, s)
    ensures !(IsKey(ev, ArrowDown) && height < 2) ==> Designates(notes, Next(notes, s, ev, height).0)
    ensures Next(notes, s, ev, height).1 != OutOfRange
  {
    match ev
    case OtherEvent =>
    case KeyEvent(key, _) =>
      match key
      case ArrowUp =>
      case ArrowDown =>
      case Enter =>
      case _ =>
        var t := Next(notes, s, ev, height).0;
        assert t == s || t.selection == 0;
  }

  /** Every note a run hands to the editor comes from the catalog. */
  lemma {:induction false} RunFromOpensCatalog(notes: seq<string>, s: Screen, frames: seq<Frame>)
    requires CursorNotPast(notes, s)
    ensures forall note :: note in RunFrom(notes, s, frames).edited ==> note in notes
    decreases |frames|
  {
    if frames != [] {
      var ev, height := frames[0].event, frames[0].height;
      NextKeepsCursor(notes, s, ev, height);
      RunFromOpensCatalog(notes, Next(notes, s, ev, height).0, frames[1..]);
    }
  }

  /** A run stops at the first Ctrl-Q, or at an Enter (the out-of-range panic), or when the
      frames run out; it opens at most one note per Enter before the stop. */
  lemma {:induction false} RunFromStops(notes: seq<string>, s: Screen, frames: seq<Frame>)
    ensures var r := RunFrom(notes, s, frames);
      && r.stop <= |frames| && (r.status == Waiting <==> r.stop == |frames|)
      && (forall i :: 0 <= i < r.stop ==> !IsKey(frames[i].event, CtrlQ))
      && (r.status == Quit ==> IsKey(frames[r.stop].event, CtrlQ))
      && (r.status == Crashed ==> IsKey(frames[r.stop].event, Enter))
      && |r.edited| <= EnterCount(frames[..r.stop])
    decreases |frames|
  {
    if frames != [] {
      var ev, height := frames[0].event, frames[0].height;
      NextOutcome(notes, s, ev, height);
      var (t, out) := Next(notes, s, ev, height);
      if out.Open? || out == Continue {
        RunFromStops(notes, t, frames[1..]);
        var k := RunFrom(notes, t, frames[1..]).stop;
        assert frames[..k + 1][1..] == frames[1..][..k];
        assert forall i :: 1 <= i < k + 1 ==> frames[i] == frames[1..][i - 1];
      }
    }
  }

  /** Starting with the cursor on a listed note, a run can lose that property, or index the
      list out of range, only after an ArrowDown on a terminal under two rows. */
  lemma {:induction false} RunFromCursor(notes: seq<string>, s: Screen, frames: seq<Frame>)
    requires Designates(notes, s)
    ensures var r := RunFrom(notes, s, frames);
      r.status == Crashed || !Designates(notes, r.screen) ==>
        exists j :: 0 <= j < r.stop && IsKey(frames[j].event, ArrowDown) && frames[j].height < 2
    decreases |frames|
  {
    if frames != [] {
      var ev, height := frames[0].event, frames[0].height;
      NextOutcome(notes, s, ev, height);
      NextKeepsDesignates(notes, s, ev, height);
      var (t, out) := Next(notes, s, ev, height);
      if (out.Open? || out == Continue) && !(IsKey(ev, ArrowDown) && height < 2) {
        RunFromCursor(notes, t, frames[1..]);
        RunFromStops(notes, t, frames[1..]);
        var r := RunFrom(notes, t, frames[1..]);
        if r.status == Crashed || !Designates(notes, r.screen) {
          var j :| 0 <= j < r.stop && IsKey(frames[1..][j].event, ArrowDown) && frames[1..][j].height < 2;
          assert frames[j + 1] == frames[1..][j];
        }
      }
    }
  }

  /** On a terminal at least two rows high throughout, a run that starts with the cursor on a
      listed note never indexes the list out of range, and ends with the cursor still on one. */
  lemma RunFromNeverCrashes(notes: seq<string>, s: Screen, frames: seq<Frame>)
    requires Designates(notes, s)
    requires forall i :: 0 <= i < |frames| ==> frames[i].height >= 2
    ensures RunFrom(notes, s, frames).status != Crashed
    ensures Designates(notes, RunFrom(notes, s, frames).screen)
  {
    RunFromStops(notes, s, frames);
    RunFromCursor(notes, s, frames);
  }

  /** The state `main` keeps across turns of its loop: the catalog, the query buffer, the
      listed notes and the package-level cursor. */
  class Session {
    /** The catalog found at start-up; it never changes. */
    const notes: seq<string>
    /** The query buffer. */
    const input: Input
    /** The notes currently listed. */
    var filtered: seq<string>
    /** The cursor row in `filtered`; the code lets it go negative (see ArrowDown). */
    var selection: int

    /** The listed notes are the catalog filtered by the current query, and the cursor is
        never past the last listed note (on an empty list it may be 0 or below). */
    ghost predicate Valid()
      reads this, input
    {
      && filtered == View(notes, input.text)
      && (selection <= 0 || selection < |filtered|)
    }

    /** Whenever something is listed, the cursor designates one of the listed notes. */
    predicate InBounds()
      reads this
    {
      filtered != [] ==> 0 <= selection < |filtered|
    }

    /** The query and the cursor, as a value; the listed notes follow from them (see `Valid`). */
    function Snapshot(): Screen
      reads this, input
    {
      Screen(input.text, selection)
    }

    /** Start-up: empty query, the whole catalog listed, cursor on the first row. */
    constructor (notes: seq<string>)
      ensures this.notes == notes && fresh(input)
      ensures input.text == [] && filtered == notes && selection == 0
      ensures Valid() && InBounds()
    {
      ViewEmptyQuery(notes);
      this.notes := notes;
      input := new Input();
      filtered := notes;
      selection := 0;
    }

    /** inputAppend: add a rune to the query, filter the catalog again, cursor to the top. */
    method InputAppend(c: char)
      requires Valid()
      modifies this, input
      ensures Valid() && InBounds()
      ensures input.text == old(input.text) + [c]
      ensures filtered == View(notes, input.text) && selection == 0
    {
      input.Append(c);
      filtered := Slices.Filter(notes, MatcherFor(input.text));
      selection := 0;
    }

    /** inputPop: remove the last rune of the query (if any), filter the catalog again,
        cursor to the top. */
    method InputPop() returns (c: char)
      requires Valid()
      modifies this, input
      ensures Valid() && InBounds()
      ensures old(input.text) == [] ==> c == NoRune && input.text == []
      ensures old(input.text) != [] ==> old(input.text) == input.text + [c]
      ensures filtered == View(notes, input.text) && selection == 0
    {
      c := input.Pop();
      filtered := Slices.Filter(notes, MatcherFor(input.text));
      selection := 0;
    }

    /** inputClear: empty the query and list the whole catalog without filtering, which is
        the same as filtering by the empty query. */
    method InputClear()
      requires Valid()
      modifies this, input
      ensures Valid() && InBounds()
      ensures input.text == [] && filtered == notes && selection == 0
      ensures filtered == View(notes, input.text)
    {
      input.text := [];
      filtered := notes;
      selection := 0;
      ViewEmptyQuery(notes);
    }

    /** One pass of the event switch, for a terminal `height` rows high. */
    method Step(ev: Event, height: int) returns (out: Outcome)
      requires Valid()
      modifies this, input
      ensures Valid()
      ensures (Screen(input.text, selection), out) == Next(notes, Screen(old(input.text), old(selection)), ev, height)
      // The cursor stays a valid index unless ArrowDown is pressed on a terminal under two rows.
      ensures old(InBounds()) && !(IsKey(ev, ArrowDown) && height < 2) ==> InBounds()
      ensures out == OutOfRange ==> !old(InBounds())
      ensures out.Open? ==> out.note in filtered && out.note in notes
      ensures out == Exit ==> IsKey(ev, CtrlQ)
      ensures out.Open? || out == OutOfRange ==> IsKey(ev, Enter)
    {
      out := Continue;
      match ev {
        case OtherEvent =>
        case KeyEvent(key, ch) =>
          match key {
            case CtrlQ =>
              out := Exit;
            case ArrowUp =>
              selection := selection - 1;
              if selection < 0 {
                selection := 0;
              }
            case ArrowDown =>
              selection := selection + 1;
              if selection > |filtered| - 1 {
                selection := |filtered| - 1;
              }
              if selection > height - 2 {
                selection := height - 2;
              }
            case Enter =>
              if |filtered| != 0 {
                if 0 <= selection {
                  out := Open(filtered[selection]);
                  ViewMembers(notes, input.text, out.note);
                } else {
                  out := OutOfRange;
                }
              }
            case Backspace | Backspace2 =>
              if |input.text| != 0 {
                var _ := InputPop();
              }
            case Esc | CtrlW =>
              if |input.text| != 0 {
                InputClear();
              }
            case Space =>
              InputAppend(' ');
            case OtherKey =>
              if ch != NoRune {
                InputAppend(ch);
              }
          }
      }
    }

    /** The loop of `main` over a finite list of frames: poll, run the event switch, and stop
        at an exit or an out-of-range panic. It does what `RunFrom` says, on this state. */
    method Loop(frames: seq<Frame>) returns (edited: seq<string>, status: Status, ghost n: nat)
      requires Valid()
      modifies this, input
      ensures Valid()
      ensures Replay(Snapshot(), edited, status, n) == RunFrom(notes, old(Snapshot()), frames)
    {
      ghost var s0 := Snapshot();
      edited, status, n := [], Waiting, 0;
      var i := 0;
      while i < |frames|
        invariant 0 <= i <= |frames| && n == i
        invariant Valid()
        invariant RunFrom(notes, s0, frames) == Resume(edited, i, RunFrom(notes, Snapshot(), frames[i..]))
      {
        ghost var before := Snapshot();
        var out := Step(frames[i].event, frames[i].height);
        ResumeStep(notes, s0, frames, i, edited, before, Snapshot(), out);
        match out {
          case Exit =>
            return edited, Quit, i;
          case OutOfRange =>
            return edited, Crashed, i;
          case Open(note) =>
            edited := edited + [note];
          case Continue =>
        }
        i, n := i + 1, i + 1;
      }
      assert frames[i..] == [];
    }

    /** The main loop over a finite list of frames, from a state whose cursor is on a listed
        note: it stops at the first Ctrl-Q, at an out-of-range panic, or when the frames run
        out, and collects the notes handed to the editor. `n` is the frame it stopped at. */
    method Run(frames: seq<Frame>) returns (edited: seq<string>, status: Status, ghost n: nat)
      requires Valid() && InBounds()
      modifies this, input
      ensures Valid()
      ensures Replay(Snapshot(), edited, status, n) == RunFrom(notes, old(Snapshot()), frames)
      ensures n <= |frames| && (status == Waiting <==> n == |frames|)
      ensures forall i :: 0 <= i < n ==> !IsKey(frames[i].event, CtrlQ)
      ensures status == Quit ==> IsKey(frames[n].event, CtrlQ)
      ensures status == Crashed ==>
        && IsKey(frames[n].event, Enter)
        && exists j :: 0 <= j < n && IsKey(frames[j].event, ArrowDown) && frames[j].height < 2
      ensures (forall i :: 0 <= i < |frames| ==> frames[i].height >= 2) ==> status != Crashed
      ensures |edited| <= EnterCount(frames[..n])
      ensures forall note :: note in edited ==> note in notes
      ensures InBounds() || exists j :: 0 <= j < n && IsKey(frames[j].event, ArrowDown) && frames[j].height < 2
      ensures (forall i :: 0 <= i < |frames| ==> frames[i].height >= 2) ==> InBounds()
    {
      ghost var s0 := Snapshot();
      RunFromStops(notes, s0, frames);
      RunFromCursor(notes, s0, frames);
      RunFromOpensCatalog(notes, s0, frames);
      edited, status, n := Loop(frames);
    }
  }

  /** Start-up over `notes`, then typing "a" and "b". */
  method TypeAb(notes: seq<string>) returns (p: Session)
    ensures fresh(p) && fresh(p.input) && p.notes == notes
    ensures p.Valid() && p.input.text == "ab" && p.selection == 0
  {
    p := new Session(notes);
    p.InputAppend('a');
    p.InputAppend('b');
  }

  /** A session over the catalog "alpha.n", "beta.n", "abcx.n": typing "a" then "b" leaves
      only "abcx.n", with the cursor on it. */
  method ExampleSession(notes: seq<string>)
    requires |notes| == 3 && notes[0] == "alpha.n" && notes[1] == "beta.n" && notes[2] == "abcx.n"
  {
    var p := TypeAb(notes);
    ExampleQueryAb(notes);
    assert p.filtered == [notes[2]];
    ExampleSingleNote(p);
  }

  /** On a one-note list and a 24-row terminal, ArrowDown keeps the cursor on the note and
      Enter hands that note to the editor. */
  method ExampleSingleNote(p: Session)
    requires p.Valid() && |p.filtered| == 1 && p.selection == 0
    modifies p, p.input
  {
    var note := p.filtered[0];
    var out := p.Step(KeyEvent(ArrowDown, NoRune), 24);
    out := p.Step(KeyEvent(Enter, NoRune), 24);
    assert out == Open(note);
  }

  /** Backspace after "ab" leaves "a" and puts the cursor back on the first row. */
  method BackspaceAfterAb(p: Session)
    requires p.Valid() && p.input.text == "ab"
    modifies p, p.input
    ensures p.Valid() && p.input.text == "a" && p.selection == 0
  {
    var out := p.Step(KeyEvent(Backspace, NoRune), 24);
    assert p.input.text == "ab"[..1];
  }

  /** Backspace after "ab" brings back all three notes, in catalog order, with the cursor reset. */
  method ExampleBackspace(notes: seq<string>)
    requires |notes| == 3 && notes[0] == "alpha.n" && notes[1] == "beta.n" && notes[2] == "abcx.n"
  {
    var p := TypeAb(notes);
    BackspaceAfterAb(p);
    ExampleQueryA(notes);
    assert p.filtered == notes && p.selection == 0;
  }

  /** ArrowDown on an empty list puts the cursor at -1, as the code does; Enter then does nothing. */
  method ExampleEmptyList(p: Session)
    requires p.Valid() && p.filtered == [] && p.selection == 0
    modifies p, p.input
  {
    var out := p.Step(KeyEvent(ArrowDown, NoRune), 24);
    out := p.Step(KeyEvent(Enter, NoRune), 24);
    assert out == Continue && p.selection == -1;
  }

  /** ArrowDown on a one-row terminal puts the cursor at -1 over a non-empty list, and Enter
      then indexes the list out of range. */
  method ExampleShortTerminal(p: Session)
    requires p.Valid() && p.filtered != [] && p.selection == 0
    modifies p, p.input
  {
    var out := p.Step(KeyEvent(ArrowDown, NoRune), 1);
    out := p.Step(KeyEvent(Enter, NoRune), 1);
    assert out == OutOfRange && p.selection == -1;
  }
}
