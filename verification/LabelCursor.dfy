/** The subscription cursor of a labeler: how frames move it, when it is stored, what a reconnection asks for. */
module LabelCursor {

  // One #labels frame, and how many of its labels the database refused.
  datatype Frame = Frame(seqNo: int, labels: nat, rejected: nat)

  // `stored`: the config row, 0 when absent, -1 after a backfill.  `asked`: the cursor of the
  // current connection.  `flushed`: what this connection's flusher saved last.
  datatype State = State(cursor: int, stored: int, asked: int, flushed: int)

  datatype Event =
    | Receive(frame: Frame)
    | Tick(saveOk: bool)
    | FinalFlush(saveOk: bool)
    | Connect

  // A frame moves the cursor unless every one of its labels was refused.
  predicate Accepted(f: Frame) {
    f.rejected == 0 || f.rejected < f.labels
  }

  function Started(stored: int): State {
    State(0, stored, stored, 0)
  }

  function Step(s: State, e: Event): State {
    match e
    case Receive(f) => if f.seqNo > s.cursor && Accepted(f) then s.(cursor := f.seqNo) else s
    case Tick(saveOk) => if s.cursor > s.flushed && saveOk then s.(stored := s.cursor, flushed := s.cursor) else s
    case FinalFlush(saveOk) => if s.cursor > 0 && saveOk then s.(stored := s.cursor) else s
    case Connect => s.(asked := s.stored, flushed := 0)
  }

  // The steps of one process, from the cursor it finds stored.
  function Run(stored: int, events: seq<Event>): State {
    if events == [] then Started(stored) else Step(Run(stored, events[..|events| - 1]), events[|events| - 1])
  }

  class Consumer {
    var cursor: int
    var stored: int
    var asked: int
    var flushed: int

    function Contents(): State
      reads this
    {
      State(cursor, stored, asked, flushed)
    }

    constructor (stored: int)
      ensures Contents() == Started(stored)
    {
      cursor, this.stored, asked, flushed := 0, stored, stored, 0;
    }

    method HandleLabelMessage(f: Frame)
      modifies this
      ensures Contents() == Step(old(Contents()), Receive(f))
    {
      if f.seqNo > cursor && (f.rejected == 0 || f.rejected < f.labels) {
        cursor := f.seqNo;
      }
    }

    method FlusherTick(saveOk: bool)
      modifies this
      ensures Contents() == Step(old(Contents()), Tick(saveOk))
    {
      if cursor > flushed && saveOk {
        stored := cursor;
        flushed := cursor;
      }
    }

    method FlushFinally(saveOk: bool)
      modifies this
      ensures Contents() == Step(old(Contents()), FinalFlush(saveOk))
    {
      if cursor <= 0 {
        return;
      }
      if saveOk {
        stored := cursor;
      }
    }

    method RunOnce()
      modifies this
      ensures Contents() == Step(old(Contents()), Connect)
    {
      asked := stored;
      flushed := 0;
    }
  }

  // A labeler sends only frames after the cursor it was asked for.
  ghost predicate Delivered(stored: int, events: seq<Event>) {
    forall i | 0 <= i < |events| && events[i].Receive? ::
      events[i].frame.seqNo > 0 && events[i].frame.seqNo > Run(stored, events[..i]).asked
  }

  predicate AcceptedAt(events: seq<Event>, i: nat)
    requires i < |events|
  {
    events[i].Receive? && Accepted(events[i].frame)
  }

  // The cursor is the highest sequence number accepted so far.
  ghost predicate IsHighest(cursor: int, events: seq<Event>) {
    && (forall i | 0 <= i < |events| && AcceptedAt(events, i) :: events[i].frame.seqNo <= cursor)
    && (cursor == 0 || exists i :: 0 <= i < |events| && AcceptedAt(events, i) && events[i].frame.seqNo == cursor)
  }

  ghost predicate Ordered(s: State, stored: int) {
    && s.cursor >= 0 && s.flushed >= 0 && stored <= s.stored && s.asked <= s.stored
    && (s.cursor > 0 ==> s.stored <= s.cursor)
    && (s.cursor == 0 ==> s.stored == s.asked == stored)
  }

  // The cursor after an event.
  function Moved(cursor: int, e: Event): int {
    if e.Receive? && e.frame.seqNo > cursor && Accepted(e.frame) then e.frame.seqNo else cursor
  }

  lemma StepKeepsOrder(s: State, e: Event, stored: int)
    requires Ordered(s, stored) && (e.Receive? ==> e.frame.seqNo > 0 && e.frame.seqNo > s.asked)
    ensures Ordered(Step(s, e), stored)
    ensures Step(s, e).cursor == Moved(s.cursor, e)
  {
  }

  lemma DeliveredPrefix(stored: int, events: seq<Event>, n: nat)
    requires Delivered(stored, events) && n <= |events|
    ensures Delivered(stored, events[..n])
  {
    assert forall i | 0 <= i < n :: events[..n][i] == events[i] && events[..n][..i] == events[..i];
  }

  lemma {:induction false} RunInvariant(stored: int, events: seq<Event>)
    requires stored >= -1 && Delivered(stored, events)
    ensures Ordered(Run(stored, events), stored) && IsHighest(Run(stored, events).cursor, events)
  {
    if events != [] {
      var n := |events| - 1;
      DeliveredPrefix(stored, events, n);
      RunInvariant(stored, events[..n]);
      StepKeepsOrder(Run(stored, events[..n]), events[n], stored);
      HighestGrows(Run(stored, events[..n]).cursor, events[..n], events[n]);
      assert events == events[..n] + [events[n]];
    }
  }

  lemma HighestGrows(cursor: int, events: seq<Event>, e: Event)
    requires IsHighest(cursor, events) && (e.Receive? ==> e.frame.seqNo > 0) && cursor >= 0
    ensures IsHighest(Moved(cursor, e), events + [e])
  {
    var after := events + [e];
    assert forall i | 0 <= i < |events| :: after[i] == events[i];
    assert after[|events|] == e;
    if e.Receive? && e.frame.seqNo > cursor && Accepted(e.frame) {
      assert AcceptedAt(after, |events|);
    } else if cursor != 0 {
      var i :| 0 <= i < |events| && AcceptedAt(events, i) && events[i].frame.seqNo == cursor;
      assert AcceptedAt(after, i) && after[i].frame.seqNo == cursor;
    }
    forall i | 0 <= i < |after| && AcceptedAt(after, i)
      ensures after[i].frame.seqNo <= Moved(cursor, e)
    {
      if i < |events| {
        assert AcceptedAt(events, i);
      }
    }
  }

  // The stored cursor never moves back, and no write puts it past what was accepted.
  lemma StoredNeverMovesBack(stored: int, events: seq<Event>, e: Event)
    requires stored >= -1 && Delivered(stored, events + [e])
    ensures Run(stored, events).stored <= Run(stored, events + [e]).stored
    ensures Run(stored, events + [e]).stored > stored ==>
            exists i :: 0 <= i <= |events| && AcceptedAt(events + [e], i)
                        && Run(stored, events + [e]).stored <= (events + [e])[i].frame.seqNo
  {
    var all := events + [e];
    assert all[..|events|] == events;
    DeliveredPrefix(stored, all, |events|);
    RunInvariant(stored, events);
    RunInvariant(stored, all);
  }

  lemma {:induction false} LastTwo(stored: int, events: seq<Event>, a: Event, b: Event)
    ensures Run(stored, events + [a, b]) == Step(Step(Run(stored, events), a), b)
  {
    assert (events + [a])[..|events|] == events;
    assert (events + [a, b])[..|events| + 1] == events + [a];
  }

  // A frame whose labels were all refused is asked for again after the last flush and a
  // reconnection exactly when nothing at or above it was accepted: one later frame is enough to lose it.
  lemma RefusedFrameComesBackIff(stored: int, events: seq<Event>, r: nat)
    requires stored >= -1 && Delivered(stored, events)
    requires r < |events| && events[r].Receive? && !Accepted(events[r].frame)
    ensures var after := Run(stored, events + [FinalFlush(true), Connect]);
            events[r].frame.seqNo > after.asked <==>
            forall i | 0 <= i < |events| && AcceptedAt(events, i) :: events[i].frame.seqNo < events[r].frame.seqNo
  {
    RunInvariant(stored, events);
    DeliveredPrefix(stored, events, r);
    RunInvariant(stored, events[..r]);
    LastTwo(stored, events, FinalFlush(true), Connect);
    var cursor := Run(stored, events).cursor;
    if cursor > 0 {
      var i :| 0 <= i < |events| && AcceptedAt(events, i) && events[i].frame.seqNo == cursor;
    }
  }
}
