/**
 Remain-on-channel operations (offchannel.c): one at a time, told apart by a cookie, ended by
 a delayed work item. Both functions run under the device mutex.
 */
module Offchannel {
  import opened Modular

  const COOKIES := 0x1_0000_0000_0000_0000

  type Cookie = c: nat | c < COOKIES

  datatype Note = Ready(cookie: Cookie) | Expired(cookie: Cookie)

  /** `wil->roc` and `wil->roc_counter`; `mgmt` says that a frame is being sent, which is
      reported elsewhere. `works` counts the cancel works queued and not yet run; `notes` is
      what user space has been told. */
  datatype Roc = Roc(cookie: Cookie, mgmt: bool, counter: Cookie, works: nat, notes: seq<Note>)

  datatype Rc = Ok | Busy | Failed

  /** The next cookie; the value 0 is skipped when the counter wraps. */
  function NextCookie(counter: Cookie): (c: Cookie)
    ensures c != 0
  {
    if (counter + 1) % COOKIES == 0 then 1 else (counter + 1) % COOKIES
  }

  /** The k-th cookie to be given out. */
  function NthCookie(counter: Cookie, k: nat): Cookie
    requires k > 0
  {
    if k == 1 then NextCookie(counter) else NextCookie(NthCookie(counter, k - 1))
  }

  lemma NextOfCookie(c: Cookie)
    requires c != 0
    ensures NextCookie(c) == c % (COOKIES - 1) + 1
  {
    if c == COOKIES - 1 {
      assert c % (COOKIES - 1) == 0;
    } else {
      assert c % (COOKIES - 1) == c;
    }
  }

  /** Cookies go round through all values but 0. */
  lemma {:induction false} NthCookieIs(counter: Cookie, k: nat)
    requires k > 0
    ensures NthCookie(counter, k) == (NextCookie(counter) - 1 + (k - 1)) % (COOKIES - 1) + 1
  {
    var first := NextCookie(counter) - 1;
    if k == 1 {
      ModUnique(first, COOKIES - 1, 0, first);
    } else {
      NthCookieIs(counter, k - 1);
      NextOfCookie(NthCookie(counter, k - 1));
      ModStep(first + (k - 2), COOKIES - 1);
      hide NextCookie;
    }
  }

  /** Any two operations less than 2^64 - 1 apart have different cookies. */
  lemma CookiesDiffer(counter: Cookie, j: nat, k: nat)
    requires 0 < j < k < j + COOKIES - 1
    ensures NthCookie(counter, j) != NthCookie(counter, k)
  {
    NthCookieIs(counter, j);
    NthCookieIs(counter, k);
    var first := NextCookie(counter) - 1;
    ModDistinct(first + (j - 1), first + (k - 1), COOKIES - 1);
  }

  /** `wil_prepare_roc` with `wil_start_roc`; `fwOk` says whether firmware takes all commands. */
  function Prepare(r: Roc, frame: bool, fwOk: bool): Roc {
    if r.cookie != 0 then r
    else
      var c := NextCookie(r.counter);
      if !fwOk then r.(counter := c, mgmt := false)
      else Roc(c, frame, c, r.works + 1, if frame then r.notes else r.notes + [Ready(c)])
  }

  /** `wil_roc_cancel_work` */
  function Cancel(r: Roc): Roc {
    Roc(0, false, r.counter, if r.works > 0 then r.works - 1 else 0,
        if r.mgmt then r.notes else r.notes + [Expired(r.cookie)])
  }

  datatype Event = PrepareEvent(frame: bool, fwOk: bool) | CancelEvent

  ghost predicate Enabled(r: Roc, e: Event) {
    e.CancelEvent? ==> r.works > 0
  }

  function Do(r: Roc, e: Event): Roc {
    match e
    case PrepareEvent(frame, fwOk) => Prepare(r, frame, fwOk)
    case CancelEvent => Cancel(r)
  }

  /** The notes are pairs of a ready and an expired with one non-zero cookie; when `open` is
      not 0 they end with the ready of that cookie. */
  ghost predicate Paired(notes: seq<Note>, open: Cookie) {
    if notes == [] then open == 0
    else
      var last, before := notes[|notes| - 1], notes[..|notes| - 1];
      && last.cookie != 0
      && (if open != 0 then last == Ready(open) && Paired(before, 0)
          else last.Expired? && Paired(before, last.cookie))
  }

  /** The cookie whose end user space waits for; 0 when there is none. */
  function Awaited(r: Roc): Cookie {
    if r.mgmt then 0 else r.cookie
  }

  /** A cookie is set exactly while one cancel work is outstanding; user space waits for the end
      of just that operation, unless it is the sending of a frame. */
  ghost predicate Inv(r: Roc) {
    && r.works == (if r.cookie == 0 then 0 else 1)
    && Paired(r.notes, Awaited(r))
    && (r.cookie == 0 ==> !r.mgmt)
  }

  lemma StepKeeps(r: Roc, e: Event)
    requires Inv(r) && Enabled(r, e)
    ensures Inv(Do(r, e))
  {
    var d := Do(r, e);
    if d.notes != r.notes { assert d.notes[..|d.notes| - 1] == r.notes; }
  }

  ghost predicate RunEnabled(r: Roc, events: seq<Event>)
    decreases |events|
  {
    events == [] || (Enabled(r, events[0]) && RunEnabled(Do(r, events[0]), events[1..]))
  }

  function Run(r: Roc, events: seq<Event>): Roc
    decreases |events|
  {
    if events == [] then r else Run(Do(r, events[0]), events[1..])
  }

  /** In every run, whatever the counter starts from and however often it wraps, ready and
      expired notes pair up and no operation is left without its end. */
  lemma NotesPairUp(counter: Cookie, events: seq<Event>)
    requires RunEnabled(Roc(0, false, counter, 0, []), events)
    ensures var r := Run(Roc(0, false, counter, 0, []), events);
            && Paired(r.notes, Awaited(r))
            && (r.cookie != 0 <==> r.works == 1) && (r.cookie == 0 <==> r.works == 0)
  {
    RunKeeps(Roc(0, false, counter, 0, []), events);
  }

  lemma {:induction false} RunKeeps(r: Roc, events: seq<Event>)
    requires Inv(r) && RunEnabled(r, events)
    ensures Inv(Run(r, events))
    decreases |events|
  {
    if events == [] {
    } else {
      StepKeeps(r, events[0]);
      hide Do, Inv, Enabled;
      RunKeeps(Do(r, events[0]), events[1..]);
    }
  }

  class Wil {
    var cookie: Cookie
    var mgmt: bool
    var counter: Cookie
    var works: nat
    var notes: seq<Note>

    ghost function View(): Roc
      reads this
    {
      Roc(cookie, mgmt, counter, works, notes)
    }

    /** `wil_prepare_roc` */
    method PrepareRoc(frame: bool, fwOk: bool) returns (rc: Rc)
      modifies this
      ensures View() == Prepare(old(View()), frame, fwOk)
      ensures rc == if old(cookie) != 0 then Busy else if fwOk then Ok else Failed
      ensures rc == Busy ==> View() == old(View())
      ensures rc != Busy ==> counter == NthCookie(old(counter), 1)
      ensures rc == Ok ==> cookie == counter && mgmt == frame && works == old(works) + 1
      ensures rc == Ok && !frame ==> notes == old(notes) + [Ready(cookie)]
      ensures rc != Ok || frame ==> notes == old(notes)
    {
      if cookie != 0 {
        return Busy;
      }
      counter := (counter + 1) % COOKIES;
      cookie := counter;
      if cookie == 0 {
        cookie := 1;
        counter := (counter + 1) % COOKIES;
      }
      mgmt := frame;
      if fwOk {
        works := works + 1;
        if !mgmt {
          notes := notes + [Ready(cookie)];
        }
        return Ok;
      }
      cookie, mgmt := 0, false;
      return Failed;
    }

    /** `wil_roc_cancel_work` */
    method RocCancelWork()
      requires works > 0
      modifies this
      ensures View() == Cancel(old(View()))
      ensures cookie == 0 && works == old(works) - 1 && counter == old(counter)
      ensures notes == if old(mgmt) then old(notes) else old(notes) + [Expired(old(cookie))]
    {
      works := works - 1;
      if !mgmt {
        notes := notes + [Expired(cookie)];
      }
      cookie, mgmt := 0, false;
    }
  }
}
