/** The fixed-window frame rate limiter of a peer, and the sliding bound it gives. */
module Limiter {
  import opened Basics

  const MAX_PEER_FRAMES := 5000
  const MAX_PEER_BYTES := 20 * 1024 * 1024

  /** start is None until the first frame. */
  datatype Window = Window(start: Option<int>, frames: nat, bytes: nat)

  datatype Offer = Offer(at: int, size: nat)

  const CLOSED_WINDOW := Window(None, 0, 0)

  function Roll(w: Window, now: int): Window {
    if w.start.None? || now - w.start.value >= SECOND then Window(Some(now), 0, 0) else w
  }

  function Allow(w: Window, o: Offer): (bool, Window) {
    var w1 := Roll(w, o.at);
    if w1.frames + 1 > MAX_PEER_FRAMES || w1.bytes + o.size > MAX_PEER_BYTES then (false, w1)
    else (true, w1.(frames := w1.frames + 1, bytes := w1.bytes + o.size))
  }

  /** The frames admitted out of a sequence of offers, and the window afterwards. */
  function Admitted(w: Window, offers: seq<Offer>): seq<Offer>
    decreases |offers|
  {
    if offers == [] then []
    else
      var (ok, w1) := Allow(w, offers[0]);
      (if ok then [offers[0]] else []) + Admitted(w1, offers[1..])
  }

  function After(w: Window, offers: seq<Offer>): Window
    decreases |offers|
  {
    if offers == [] then w else After(Allow(w, offers[0]).1, offers[1..])
  }

  predicate Nondecreasing(s: seq<Offer>) {
    forall i, j :: 0 <= i < j < |s| ==> s[i].at <= s[j].at
  }

  /** How many of the frames fall in [lo, hi), and their bytes. */
  function Frames(s: seq<Offer>, lo: int, hi: int): nat {
    if s == [] then 0 else (if lo <= s[0].at < hi then 1 else 0) + Frames(s[1..], lo, hi)
  }

  function Bytes(s: seq<Offer>, lo: int, hi: int): nat {
    if s == [] then 0 else (if lo <= s[0].at < hi then s[0].size else 0) + Bytes(s[1..], lo, hi)
  }

  predicate InRange(o: Offer, lo: int, hi: int) {
    lo <= o.at < hi
  }

  /** One step of the two sums over the admitted frames. */
  lemma AdmittedStep(w: Window, offers: seq<Offer>, lo: int, hi: int)
    requires offers != []
    ensures var (ok, w1) := Allow(w, offers[0]);
            var (rest, hit) := (Admitted(w1, offers[1..]), ok && InRange(offers[0], lo, hi));
            && Frames(Admitted(w, offers), lo, hi) == (if hit then 1 else 0) + Frames(rest, lo, hi)
            && Bytes(Admitted(w, offers), lo, hi) == (if hit then offers[0].size else 0) + Bytes(rest, lo, hi)
  {
    var (ok, w1) := Allow(w, offers[0]);
    var rest := Admitted(w1, offers[1..]);
    assert [] + rest == rest;
    assert ([offers[0]] + rest)[1..] == rest;
  }

  // ---------- the upper bound ----------

  predicate WindowOk(w: Window) {
    w.frames <= MAX_PEER_FRAMES && w.bytes <= MAX_PEER_BYTES
  }

  /** How many windows can start in [from, hi), their starts being a second or more apart. */
  function Slots(from: int, hi: int): nat {
    if hi <= from then 0 else (hi - from + SECOND - 1) / SECOND
  }

  /** The first instant from lo on at which another window can start. */
  function NextStart(w: Window, lo: int): int {
    if w.start.None? || w.start.value + SECOND < lo then lo else w.start.value + SECOND
  }

  lemma {:induction false} NothingBeyond(w: Window, offers: seq<Offer>, lo: int, hi: int)
    requires forall i :: 0 <= i < |offers| ==> hi <= offers[i].at
    ensures Frames(Admitted(w, offers), lo, hi) == 0 && Bytes(Admitted(w, offers), lo, hi) == 0
    decreases |offers|
  {
    if offers != [] {
      AdmittedStep(w, offers, lo, hi);
      NothingBeyond(Allow(w, offers[0]).1, offers[1..], lo, hi);
    }
  }

  /** Frames offered at lo or later fit in the rest of this window and the windows that can still start. */
  lemma {:induction false} BoundFrom(w: Window, offers: seq<Offer>, lo: int, hi: int)
    requires Nondecreasing(offers) && WindowOk(w)
    requires forall i :: 0 <= i < |offers| ==> lo <= offers[i].at
    ensures Frames(Admitted(w, offers), lo, hi) <= MAX_PEER_FRAMES * (1 + Slots(NextStart(w, lo), hi)) - w.frames
    ensures Bytes(Admitted(w, offers), lo, hi) <= MAX_PEER_BYTES * (1 + Slots(NextStart(w, lo), hi)) - w.bytes
    decreases |offers|
  {
    if offers != [] {
      var o := offers[0];
      var w1 := Allow(w, o).1;
      if hi <= o.at {
        NothingBeyond(w, offers, lo, hi);
      } else {
        AdmittedStep(w, offers, lo, hi);
        BoundFrom(w1, offers[1..], lo, hi);
        if Roll(w, o.at) != w {
          assert Slots(NextStart(w1, lo), hi) + 1 <= Slots(o.at, hi) <= Slots(NextStart(w, lo), hi);
        }
      }
    }
  }

  /**
   The sliding bound. Whatever is offered at nondecreasing times, and whatever happened before,
   the limiter admits in any [t, t + k seconds) at most (k+1) * 5000 frames and (k+1) * 20 MiB.
   */
  lemma {:induction false} SlidingBound(w: Window, offers: seq<Offer>, t: int, k: nat)
    requires Nondecreasing(offers) && WindowOk(w)
    ensures Frames(Admitted(w, offers), t, t + k * SECOND) <= (k + 1) * 5000
    ensures Bytes(Admitted(w, offers), t, t + k * SECOND) <= (k + 1) * (20 * 1024 * 1024)
    decreases |offers|
  {
    var hi := t + k * SECOND;
    if offers == [] {
    } else if offers[0].at < t {
      AdmittedStep(w, offers, t, hi);
      SlidingBound(Allow(w, offers[0]).1, offers[1..], t, k);
    } else {
      BoundFrom(w, offers, t, hi);
      assert Slots(NextStart(w, t), hi) <= Slots(t, hi) <= k;
    }
  }

  // ---------- no needless refusal ----------

  /** The window counts exactly the admitted frames since its start, all of them less than a second after it. */
  predicate Counts(w: Window, admitted: seq<Offer>, now: int) {
    && WindowOk(w)
    && (w.start.None? ==> admitted == [])
    && (w.start.Some? ==>
          && w.start.value <= now
          && (forall i :: 0 <= i < |admitted| ==> admitted[i].at <= now && admitted[i].at < w.start.value + SECOND)
          && w.frames == Frames(admitted, w.start.value, now + 1)
          && w.bytes == Bytes(admitted, w.start.value, now + 1))
  }

  lemma {:induction false} SumsAppend(s: seq<Offer>, o: Offer, lo: int, hi: int)
    ensures Frames(s + [o], lo, hi) == Frames(s, lo, hi) + if InRange(o, lo, hi) then 1 else 0
    ensures Bytes(s + [o], lo, hi) == Bytes(s, lo, hi) + if InRange(o, lo, hi) then o.size else 0
  {
    if s == [] {
      assert s + [o] == [o];
    } else {
      SumsAppend(s[1..], o, lo, hi);
      assert (s + [o])[1..] == s[1..] + [o];
    }
  }

  lemma {:induction false} SumsBetween(s: seq<Offer>, lo: int, hi: int, hi': int)
    requires hi <= hi' && forall i :: 0 <= i < |s| ==> s[i].at < hi
    ensures Frames(s, lo, hi) == Frames(s, lo, hi') && Bytes(s, lo, hi) == Bytes(s, lo, hi')
    ensures hi <= lo ==> Frames(s, lo, hi') == 0 && Bytes(s, lo, hi') == 0
  {
    if s != [] {
      SumsBetween(s[1..], lo, hi, hi');
    }
  }

  lemma CountsStep(w: Window, admitted: seq<Offer>, now: int, o: Offer)
    requires Counts(w, admitted, now) && now <= o.at
    ensures var (ok, w1) := Allow(w, o);
            Counts(w1, if ok then admitted + [o] else admitted, o.at)
    ensures Counts(Roll(w, o.at), admitted, o.at) || admitted == []
  {
    var w0 := Roll(w, o.at);
    var start := w0.start.value;
    if w.start.Some? {
      if w0 == w {
        SumsBetween(admitted, start, now + 1, o.at + 1);
      } else {
        SumsBetween(admitted, start, o.at, o.at + 1);
      }
    }
    SumsAppend(admitted, o, start, o.at + 1);
  }

  function LastTime(now: int, offers: seq<Offer>): int {
    if offers == [] then now else offers[|offers| - 1].at
  }

  lemma AdmittedAfter(admitted: seq<Offer>, w: Window, offers: seq<Offer>)
    requires offers != []
    ensures var (ok, w1) := Allow(w, offers[0]);
            admitted + Admitted(w, offers) == (if ok then admitted + [offers[0]] else admitted) + Admitted(w1, offers[1..])
  {
  }

  lemma {:induction false} CountsRun(w: Window, admitted: seq<Offer>, now: int, offers: seq<Offer>)
    requires Counts(w, admitted, now) && Nondecreasing(offers)
    requires forall i :: 0 <= i < |offers| ==> now <= offers[i].at
    ensures Counts(After(w, offers), admitted + Admitted(w, offers), LastTime(now, offers))
    decreases |offers|
  {
    if offers == [] {
      assert admitted + [] == admitted;
    } else {
      var o, rest := offers[0], offers[1..];
      var (ok, w1) := Allow(w, o);
      var more := if ok then admitted + [o] else admitted;
      assert Counts(w1, more, o.at) by {
        CountsStep(w, admitted, now, o);
      }
      CountsRun(w1, more, o.at, rest);
      AdmittedAfter(admitted, w, offers);
    }
  }

  /**
   A frame is refused only for want of room: since some instant less than a second ago, the
   frames already admitted and this one would exceed 5000, or their bytes 20 MiB.
   */
  lemma RefusedOnlyWhenFull(offers: seq<Offer>, o: Offer) returns (since: int)
    requires Nondecreasing(offers) && forall i :: 0 <= i < |offers| ==> offers[i].at <= o.at
    requires !Allow(After(CLOSED_WINDOW, offers), o).0
    ensures o.at - SECOND < since <= o.at
    ensures var before := Admitted(CLOSED_WINDOW, offers);
            || Frames(before, since, o.at + 1) + 1 > 5000
            || Bytes(before, since, o.at + 1) + o.size > 20 * 1024 * 1024
  {
    var now := if offers == [] then o.at else offers[0].at;
    CountsRun(CLOSED_WINDOW, [], now, offers);
    var w := After(CLOSED_WINDOW, offers);
    assert [] + Admitted(CLOSED_WINDOW, offers) == Admitted(CLOSED_WINDOW, offers);
    CountsStep(w, Admitted(CLOSED_WINDOW, offers), LastTime(now, offers), o);
    since := Roll(w, o.at).start.value;
  }
}
