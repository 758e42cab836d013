/**
  What the per-user feature snapshot promises: the churn label, where the
  label timestamp falls, which events feed the features, that nothing at or
  after a cancellation leaks into them, and the bounds of the derived
  counters and ratios.
 */
module FeatureProps {
  import opened Base
  import opened Features

  /** The events a user's window admits: the user's own, before the cancellation, inside the look-back. */
  function Admitted(u: string, cutoff: int, churned: bool, lookbackDays: int): Event -> bool {
    (e: Event) => e.userId == u && (churned ==> e.ts < cutoff) && (lookbackDays != 0 ==> e.ts >= WindowStart(cutoff, lookbackDays))
  }

  /** A user's timeline holds exactly that user's events, each as often as in the log. */
  lemma TimelineMultiset(events: seq<Event>, u: string, x: Event)
    ensures multiset(Timeline(events, u))[x] == if x.userId == u then multiset(events)[x] else 0
  {
    FilterMultiplicity(events, IsUser(u), x);
  }

  lemma TimelineMembership(events: seq<Event>, u: string, x: Event)
    ensures x in Timeline(events, u) <==> x in events && x.userId == u
  {
    TimelineMultiset(events, u, x);
    assert x in Timeline(events, u) <==> x in multiset(Timeline(events, u));
    assert x in events <==> x in multiset(events);
  }

  /** The user has a cancellation in the timeline exactly when the log has one for that user. */
  lemma ChurnInTimeline(events: seq<Event>, u: string)
    ensures HasChurnEvent(Timeline(events, u)) <==>
      exists i :: 0 <= i < |events| && events[i].userId == u && events[i].page == CHURN_EVENT
  {
    var t := Timeline(events, u);
    if HasChurnEvent(t) {
      var i :| 0 <= i < |t| && t[i].page == CHURN_EVENT;
      TimelineMembership(events, u, t[i]);
      var j :| 0 <= j < |events| && events[j] == t[i];
    }
    if exists i :: 0 <= i < |events| && events[i].userId == u && events[i].page == CHURN_EVENT {
      var i :| 0 <= i < |events| && events[i].userId == u && events[i].page == CHURN_EVENT;
      TimelineMembership(events, u, events[i]);
      var j :| 0 <= j < |t| && t[j] == events[i];
    }
  }

  /** In a time-ordered timeline the first cancellation is the earliest one. */
  lemma {:induction false} FirstChurnIsEarliest(t: seq<Event>)
    requires SortedByKey(t, TsOf) && HasChurnEvent(t)
    ensures forall i :: 0 <= i < |t| && t[i].page == CHURN_EVENT ==> FirstChurnTs(t) <= t[i].ts
  {
    if t[0].page != CHURN_EVENT {
      assert HasChurnEvent(t[1..]) by {
        var i :| 0 <= i < |t| && t[i].page == CHURN_EVENT;
        assert t[1..][i - 1] == t[i];
      }
      FirstChurnIsEarliest(t[1..]);
      forall i | 1 <= i < |t| && t[i].page == CHURN_EVENT ensures FirstChurnTs(t) <= t[i].ts {
        assert t[1..][i - 1] == t[i];
      }
    } else {
      forall i | 0 <= i < |t| ensures t[0].ts <= t[i].ts {
        if i > 0 {
          assert TsOf(t[0]) <= TsOf(t[i]);
        }
      }
    }
  }

  /**
    The churn label is 0 or 1, and 1 exactly when the log holds a
    cancellation of that user.
   */
  lemma ChurnLabel(events: seq<Event>, u: string, cfg: FeatureConfig, cols: EventColumns)
    requires UserRow(events, u, cfg, cols).Some?
    ensures var r := UserRow(events, u, cfg, cols).value;
      && (r.churned == 0 || r.churned == 1)
      && (r.churned == 1 <==> exists i :: 0 <= i < |events| && events[i].userId == u && events[i].page == CHURN_EVENT)
  {
    ChurnInTimeline(events, u);
  }

  /** A user's row, when there is one, is the snapshot of the user's window at the user's cutoff. */
  lemma RowOfUser(events: seq<Event>, u: string, cfg: FeatureConfig, cols: EventColumns)
    requires UserRow(events, u, cfg, cols).Some?
    ensures var t := Timeline(events, u);
      && t != []
      && PassesGate(Window(t, cfg), cfg)
      && UserRow(events, u, cfg, cols).value == Snapshot(u, Cutoff(t), HasChurnEvent(t), Window(t, cfg), cfg, cols)
  {
  }

  /** Where a timeline's cutoff falls: the earliest cancellation if any, else the latest event. */
  lemma CutoffPlacement(events: seq<Event>, u: string)
    requires Timeline(events, u) != []
    ensures var t := Timeline(events, u);
      if HasChurnEvent(t) then
        && (exists i :: 0 <= i < |events| && events[i].userId == u && events[i].page == CHURN_EVENT && events[i].ts == Cutoff(t))
        && (forall i :: 0 <= i < |events| && events[i].userId == u && events[i].page == CHURN_EVENT ==> Cutoff(t) <= events[i].ts)
      else
        && (exists i :: 0 <= i < |events| && events[i].userId == u && events[i].ts == Cutoff(t))
        && (forall i :: 0 <= i < |events| && events[i].userId == u ==> events[i].ts <= Cutoff(t))
  {
    var t := Timeline(events, u);
    if HasChurnEvent(t) {
      ChurnedCutoff(events, u, t);
    } else {
      ActiveCutoff(events, u, t);
    }
  }

  lemma ChurnedCutoff(events: seq<Event>, u: string, t: seq<Event>)
    requires t == Timeline(events, u) && HasChurnEvent(t)
    ensures exists i :: 0 <= i < |events| && events[i].userId == u && events[i].page == CHURN_EVENT && events[i].ts == FirstChurnTs(t)
    ensures forall i :: 0 <= i < |events| && events[i].userId == u && events[i].page == CHURN_EVENT ==> FirstChurnTs(t) <= events[i].ts
  {
    FirstChurnIsEarliest(t);
    forall i | 0 <= i < |events| && events[i].userId == u && events[i].page == CHURN_EVENT
      ensures FirstChurnTs(t) <= events[i].ts
    {
      TimelineMembership(events, u, events[i]);
    }
    var k :| 0 <= k < |t| && t[k].page == CHURN_EVENT && t[k].ts == FirstChurnTs(t);
    TimelineMembership(events, u, t[k]);
    var j :| 0 <= j < |events| && events[j] == t[k];
  }

  lemma ActiveCutoff(events: seq<Event>, u: string, t: seq<Event>)
    requires t == Timeline(events, u) && t != []
    ensures exists i :: 0 <= i < |events| && events[i].userId == u && events[i].ts == MaxTs(t)
    ensures forall i :: 0 <= i < |events| && events[i].userId == u ==> events[i].ts <= MaxTs(t)
  {
    TsBounds(t);
    forall i | 0 <= i < |events| && events[i].userId == u ensures events[i].ts <= MaxTs(t) {
      TimelineMembership(events, u, events[i]);
    }
    var k :| 0 <= k < |t| && t[k].ts == MaxTs(t);
    TimelineMembership(events, u, t[k]);
    var j :| 0 <= j < |events| && events[j] == t[k];
  }

  /**
    The label timestamp of a churned user is the time of the user's earliest
    cancellation; of any other user, the time of the user's latest event.
   */
  lemma LabelTimestamp(events: seq<Event>, u: string, cfg: FeatureConfig, cols: EventColumns)
    requires UserRow(events, u, cfg, cols).Some?
    ensures var r := UserRow(events, u, cfg, cols).value;
      if r.churned == 1 then
        && (exists i :: 0 <= i < |events| && events[i].userId == u && events[i].page == CHURN_EVENT && events[i].ts == r.labelTs)
        && (forall i :: 0 <= i < |events| && events[i].userId == u && events[i].page == CHURN_EVENT ==> r.labelTs <= events[i].ts)
      else
        && (exists i :: 0 <= i < |events| && events[i].userId == u && events[i].ts == r.labelTs)
        && (forall i :: 0 <= i < |events| && events[i].userId == u ==> events[i].ts <= r.labelTs)
  {
    RowOfUser(events, u, cfg, cols);
    CutoffPlacement(events, u);
  }

  /** `UserRow` of a user with events, spelled out. */
  lemma UserRowOfTimeline(events: seq<Event>, u: string, cfg: FeatureConfig, cols: EventColumns)
    requires Timeline(events, u) != []
    ensures var t := Timeline(events, u);
      UserRow(events, u, cfg, cols) ==
        if PassesGate(Window(t, cfg), cfg) then Some(Snapshot(u, Cutoff(t), HasChurnEvent(t), Window(t, cfg), cfg, cols))
        else None
  {
  }

  /**
    The window holds exactly the user's events that precede the cancellation
    (for a churned user) and fall inside the look-back (when one is set),
    each as often as in the log.
   */
  lemma WindowContents(events: seq<Event>, u: string, cfg: FeatureConfig)
    requires Timeline(events, u) != []
    ensures var t := Timeline(events, u);
      multiset(Window(t, cfg)) == multiset(Filter(events, Admitted(u, Cutoff(t), HasChurnEvent(t), cfg.lookbackDays)))
  {
    var t := Timeline(events, u);
    var c := Cutoff(t);
    var churned := HasChurnEvent(t);
    var beforeCut := if churned then Filter(t, TsBelow(c)) else t;
    var w := Window(t, cfg);
    var admitted := Admitted(u, c, churned, cfg.lookbackDays);
    forall x ensures multiset(w)[x] == multiset(Filter(events, admitted))[x] {
      TimelineMultiset(events, u, x);
      FilterMultiplicity(events, admitted, x);
      FilterMultiplicity(t, TsBelow(c), x);
      FilterMultiplicity(beforeCut, TsAtLeast(WindowStart(c, cfg.lookbackDays)), x);
    }
    assert multiset(w) == multiset(Filter(events, admitted));
  }

  /** A row counts exactly the admitted events, and a kept user clears both activity thresholds. */
  lemma RowCountsWindow(events: seq<Event>, u: string, cfg: FeatureConfig, cols: EventColumns)
    requires UserRow(events, u, cfg, cols).Some?
    ensures var t := Timeline(events, u);
      var r := UserRow(events, u, cfg, cols).value;
      && r.numEvents == |Filter(events, Admitted(u, r.labelTs, r.churned == 1, cfg.lookbackDays))|
      && r.numEvents >= cfg.minEventsPerUser
      && r.numSessions >= cfg.minSessionsPerUser
  {
    RowOfUser(events, u, cfg, cols);
    WindowContents(events, u, cfg);
    var t := Timeline(events, u);
    var w := Window(t, cfg);
    var f := Filter(events, Admitted(u, Cutoff(t), HasChurnEvent(t), cfg.lookbackDays));
    assert |multiset(w)| == |multiset(f)|;
  }

  /** Appending an event of another user leaves a user's row unchanged. */
  lemma OtherUsersIrrelevant(events: seq<Event>, e: Event, u: string, cfg: FeatureConfig, cols: EventColumns)
    requires e.userId != u
    ensures UserRow(events + [e], u, cfg, cols) == UserRow(events, u, cfg, cols)
  {
    FilterAppend(events, [e], IsUser(u));
    assert Filter([e], IsUser(u)) == [];
    assert Filter(events + [e], IsUser(u)) == Filter(events, IsUser(u));
  }

  /** Inserting an event at or after the cutoff keeps a cancellation and its timestamp. */
  lemma InsertKeepsCutoff(t: seq<Event>, e: Event)
    requires SortedByKey(t, TsOf) && HasChurnEvent(t) && e.ts >= FirstChurnTs(t)
    ensures var t' := InsertByKey(e, t, TsOf);
      HasChurnEvent(t') && FirstChurnTs(t') == FirstChurnTs(t)
  {
    var t' := InsertByKey(e, t, TsOf);
    var c := FirstChurnTs(t);
    InsertSorted(e, t, TsOf);
    var k :| 0 <= k < |t| && t[k].page == CHURN_EVENT && t[k].ts == c;
    assert t[k] in multiset(t');
    var k' :| 0 <= k' < |t'| && t'[k'] == t[k];
    assert HasChurnEvent(t');
    FirstChurnIsEarliest(t');
    FirstChurnIsEarliest(t);
    var c' := FirstChurnTs(t');
    assert c' <= c;
    var j :| 0 <= j < |t'| && t'[j].page == CHURN_EVENT && t'[j].ts == c';
    assert t'[j] in multiset(t) + multiset{e};
    if t'[j] != e {
      assert t'[j] in multiset(t);
      var i :| 0 <= i < |t| && t[i] == t'[j];
    }
  }

  /** A user's own new event is inserted into the user's timeline by time. */
  lemma TimelineSnoc(events: seq<Event>, e: Event, u: string)
    requires e.userId == u
    ensures Timeline(events + [e], u) == InsertByKey(e, Timeline(events, u), TsOf)
  {
    FilterAppend(events, [e], IsUser(u));
    assert Filter([e], IsUser(u)) == [e];
    SortByKeySnoc(Filter(events, IsUser(u)), e, TsOf);
  }

  /** An event inserted at or after the cancellation changes neither the cutoff nor the window. */
  lemma WindowIgnoresLateEvent(t: seq<Event>, e: Event, cfg: FeatureConfig)
    requires SortedByKey(t, TsOf) && HasChurnEvent(t) && e.ts >= Cutoff(t)
    ensures var t' := InsertByKey(e, t, TsOf);
      && t' != []
      && HasChurnEvent(t')
      && Cutoff(t') == Cutoff(t)
      && Window(t', cfg) == Window(t, cfg)
  {
    var t' := InsertByKey(e, t, TsOf);
    InsertKeepsCutoff(t, e);
    var c := Cutoff(t);
    FilterInsert(e, t, TsOf, TsBelow(c));
    assert Filter(t', TsBelow(c)) == Filter(t, TsBelow(c));
  }

  /**
    No leakage: once a user has cancelled, appending any event at or after
    the cancellation time, of any user, leaves that user's row unchanged.
   */
  lemma NoLeakageAfterCancellation(events: seq<Event>, e: Event, u: string, cfg: FeatureConfig, cols: EventColumns)
    requires Timeline(events, u) != [] && HasChurnEvent(Timeline(events, u))
    requires e.ts >= Cutoff(Timeline(events, u))
    ensures UserRow(events + [e], u, cfg, cols) == UserRow(events, u, cfg, cols)
  {
    if e.userId != u {
      OtherUsersIrrelevant(events, e, u, cfg, cols);
    } else {
      TimelineSnoc(events, e, u);
      WindowIgnoresLateEvent(Timeline(events, u), e, cfg);
      UserRowOfTimeline(events, u, cfg, cols);
      UserRowOfTimeline(events + [e], u, cfg, cols);
    }
  }

  /** The seven page counters of a window. */
  function PageCounts(w: seq<Event>): nat {
    CountWhere(w, PageIs("NextSong")) + CountWhere(w, PageIs("Error")) + CountWhere(w, PageIs("Add Friend"))
    + CountWhere(w, PageIs("Add to Playlist")) + CountWhere(w, PageIs("Roll Advert"))
    + CountWhere(w, PageIs("Thumbs Up")) + CountWhere(w, PageIs("Thumbs Down"))
  }

  /** The page names are distinct, so every event feeds at most one counter. */
  lemma {:induction false} PageCountsWithinEvents(w: seq<Event>)
    ensures PageCounts(w) <= |w|
  {
    if w != [] {
      PageCountsWithinEvents(w[1..]);
    }
  }

  /** The page counters of a row together never exceed its number of events. */
  lemma CountersWithinEvents(events: seq<Event>, u: string, cfg: FeatureConfig, cols: EventColumns)
    requires UserRow(events, u, cfg, cols).Some?
    ensures var r := UserRow(events, u, cfg, cols).value;
      r.numSongs + r.numErrors + r.numAddFriend + r.numAddPlaylist + r.numRollAdvert
      + r.numThumbUp + r.numThumbDown <= r.numEvents
  {
    RowOfUser(events, u, cfg, cols);
    PageCountsWithinEvents(Window(Timeline(events, u), cfg));
  }

  /** The paid-event ratio is the share of the window's events on the paid level, in [0, 1]. */
  lemma PaidRatioBounds(events: seq<Event>, u: string, cfg: FeatureConfig, cols: EventColumns)
    requires UserRow(events, u, cfg, cols).Some?
    ensures var r := UserRow(events, u, cfg, cols).value;
      var w := Window(Timeline(events, u), cfg);
      && 0.0 <= r.paidEventRatio <= 1.0
      && r.paidEventRatio == SafeRatio(CountWhere(w, LevelIs("paid")) as real, r.numEvents as real)
  {
    RowOfUser(events, u, cfg, cols);
    var w := Window(Timeline(events, u), cfg);
    SafeRatioBounds(CountWhere(w, LevelIs("paid")) as real, |w| as real);
  }

  /**
    The active days of a row are never negative and, under a positive
    look-back, never exceed the look-back; at most one gender flag is set.
   */
  lemma ActiveDaysAndGender(events: seq<Event>, u: string, cfg: FeatureConfig, cols: EventColumns)
    requires UserRow(events, u, cfg, cols).Some?
    ensures var r := UserRow(events, u, cfg, cols).value;
      && r.activeDays >= 0
      && (cfg.lookbackDays > 0 ==> r.activeDays <= cfg.lookbackDays)
      && !(r.genderM == Some(1) && r.genderF == Some(1))
  {
    RowOfUser(events, u, cfg, cols);
    ActiveDaysBounds(events, u, cfg);
  }

  /** The days between a window's first and last event. */
  lemma ActiveDaysBounds(events: seq<Event>, u: string, cfg: FeatureConfig)
    requires Timeline(events, u) != []
    ensures var w := Window(Timeline(events, u), cfg);
      var days := if w == [] then 0 else WholeDays(MaxTs(w) - MinTs(w));
      days >= 0 && (cfg.lookbackDays > 0 ==> days <= cfg.lookbackDays)
  {
    var t := Timeline(events, u);
    var w := Window(t, cfg);
    if w != [] {
      TsBounds(w);
      var c := Cutoff(t);
      if cfg.lookbackDays > 0 {
        WindowContents(events, u, cfg);
        CutoffPlacement(events, u);
        var admitted := Admitted(u, c, HasChurnEvent(t), cfg.lookbackDays);
        forall i | 0 <= i < |w| ensures WindowStart(c, cfg.lookbackDays) <= w[i].ts <= c {
          assert w[i] in multiset(Filter(events, admitted));
          FilterIn(events, admitted, w[i]);
          var j :| 0 <= j < |events| && events[j] == w[i];
        }
        var hi :| 0 <= hi < |w| && w[hi].ts == MaxTs(w);
        var lo :| 0 <= lo < |w| && w[lo].ts == MinTs(w);
        assert MaxTs(w) - MinTs(w) <= cfg.lookbackDays * 86_400_000;
      }
    }
  }
}
