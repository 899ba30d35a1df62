/** What an fs-poll watcher should report, as a function of the stat results alone. */
module ChangeDetector {

  datatype Option<T> = None | Some(value: T)

  datatype Timespec = Timespec(sec: int, nsec: int)

  /** uv_stat_t */
  datatype Stat = Stat(
    dev: nat, mode: nat, nlink: nat, uid: nat, gid: nat, rdev: nat, ino: nat, size: nat,
    blksize: nat, blocks: nat, flags: nat, gen: nat,
    atim: Timespec, mtim: Timespec, ctim: Timespec, birthtim: Timespec)

  const ZERO_TIME := Timespec(0, 0)

  /** zero_statbuf */
  const ZERO := Stat(0, 0, 0, 0, 0, 0, 0, 0, 0, 0, 0, 0, ZERO_TIME, ZERO_TIME, ZERO_TIME, ZERO_TIME)

  /** statbuf_eq */
  predicate StatEq(a: Stat, b: Stat) {
    && a.ctim.nsec == b.ctim.nsec
    && a.mtim.nsec == b.mtim.nsec
    && a.birthtim.nsec == b.birthtim.nsec
    && a.ctim.sec == b.ctim.sec
    && a.mtim.sec == b.mtim.sec
    && a.birthtim.sec == b.birthtim.sec
    && a.size == b.size
    && a.mode == b.mode
    && a.uid == b.uid
    && a.gid == b.gid
    && a.ino == b.ino
    && a.dev == b.dev
    && a.flags == b.flags
    && a.gen == b.gen
  }

  /** Links, device number, block counts and access time do not matter; all else does. */
  lemma StatEqMeaning(a: Stat, b: Stat)
    ensures StatEq(a, b) <==>
      a.(nlink := 0, rdev := 0, blksize := 0, blocks := 0, atim := ZERO_TIME) ==
      b.(nlink := 0, rdev := 0, blksize := 0, blocks := 0, atim := ZERO_TIME)
  {
    assert a.ctim == b.ctim <==> a.ctim.sec == b.ctim.sec && a.ctim.nsec == b.ctim.nsec;
    assert a.mtim == b.mtim <==> a.mtim.sec == b.mtim.sec && a.mtim.nsec == b.mtim.nsec;
    assert a.birthtim == b.birthtim <==> a.birthtim.sec == b.birthtim.sec && a.birthtim.nsec == b.birthtim.nsec;
  }

  /** What one stat request delivers: an error code below zero, or the file's state. */
  datatype Result = Failed(code: int) | Got(stat: Stat)

  predicate Sane(r: Result) { r.Failed? ==> r.code < 0 }

  /** The arguments of one user callback after the handle. */
  datatype Report = Report(status: int, prev: Stat, curr: Stat)

  /** The state the last successful stat found, zero before the first. */
  function LastGood(rs: seq<Result>): Stat {
    if rs == [] then ZERO
    else match rs[|rs| - 1]
      case Got(s) => s
      case Failed(_) => LastGood(rs[..|rs| - 1])
  }

  /** What to report when r comes in after rs: the difference from the result right before. */
  function Change(rs: seq<Result>, r: Result): Option<Report> {
    match r
    case Failed(code) =>
      if rs != [] && rs[|rs| - 1] == r then None else Some(Report(code, LastGood(rs), ZERO))
    case Got(s) =>
      if rs == [] then None
      else match rs[|rs| - 1]
        case Failed(_) => Some(Report(0, LastGood(rs), s))
        case Got(p) => if StatEq(p, s) then None else Some(Report(0, p, s))
  }

  /** All reports for the results rs. */
  function Reports(rs: seq<Result>): seq<Report> {
    if rs == [] then []
    else
      var before := Reports(rs[..|rs| - 1]);
      match Change(rs[..|rs| - 1], rs[|rs| - 1])
      case None => before
      case Some(e) => before + [e]
  }

  /** busy_polling after the results rs: 0 at first, then the error code or 1. */
  function Busy(rs: seq<Result>): int {
    if rs == [] then 0
    else match rs[|rs| - 1]
      case Failed(code) => code
      case Got(_) => 1
  }

  /** The branches of poll_cb on busy_polling and statbuf alone. */
  function Notify(busy: int, statbuf: Stat, r: Result): Option<Report> {
    match r
    case Failed(code) => if busy != code then Some(Report(code, statbuf, ZERO)) else None
    case Got(s) =>
      if busy != 0 && (busy < 0 || !StatEq(statbuf, s)) then Some(Report(0, statbuf, s)) else None
  }

  /** The two remembered values are all the history a watcher needs. */
  lemma NotifyIsChange(rs: seq<Result>, r: Result)
    requires forall i :: 0 <= i < |rs| ==> Sane(rs[i])
    requires Sane(r)
    ensures Notify(Busy(rs), LastGood(rs), r) == Change(rs, r)
  {
    if rs != [] {
      var last := rs[|rs| - 1];
      assert Sane(last);
      assert last.Got? ==> LastGood(rs) == last.stat;
    }
  }

  lemma Snoc(rs: seq<Result>, r: Result)
    ensures Busy(rs + [r]) == match r case Failed(code) => code case Got(_) => 1
    ensures LastGood(rs + [r]) == match r case Failed(_) => LastGood(rs) case Got(s) => s
    ensures Reports(rs + [r]) == Reports(rs) + match Change(rs, r) case None => [] case Some(e) => [e]
  {
    var all := rs + [r];
    assert all[..|all| - 1] == rs && all[|all| - 1] == r;
    assert Reports(rs) + [] == Reports(rs);
  }

  /** However often the same result repeats, nothing more is reported. */
  lemma {:induction false} QuietWhileUnchanged(rs: seq<Result>, r: Result, n: nat)
    requires rs != [] && rs[|rs| - 1] == r
    ensures Reports(rs + seq(n, _ => r)) == Reports(rs)
    decreases n
  {
    var tail := seq(n, _ => r);
    if n == 0 {
      assert rs + tail == rs;
    } else {
      assert seq(n, _ => r) == seq(n - 1, _ => r) + [r];
      var shorter := rs + seq(n - 1, _ => r);
      assert rs + tail == shorter + [r];
      assert shorter[|shorter| - 1] == r;
      QuietWhileUnchanged(rs, r, n - 1);
      Snoc(shorter, r);
    }
  }

  // ----- the timer ----------------------------------------------------------------------

  /** When the timer started at now is due: poll_cb's interval arithmetic. */
  function Due(start: nat, now: nat, interval: nat): nat
    requires interval > 0 && start <= now
  { now + (interval - (now - start) % interval) }

  /** The first instant after now that lies a whole number of intervals after start. */
  lemma DueIsNext(start: nat, now: nat, interval: nat)
    requires interval > 0 && start <= now
    ensures var due := Due(start, now, interval);
      && due == start + ((now - start) / interval + 1) * interval
      && now < due <= now + interval
  {
    var d := now - start;
    assert d == d / interval * interval + d % interval;
    assert (d / interval + 1) * interval == d / interval * interval + interval;
  }

  lemma Scale(j: nat, k: nat, m: nat)
    requires j <= k
    ensures j * m <= k * m
  {
    assert k * m == j * m + (k - j) * m;
  }

  /** Multiples at least m apart leave no room for two quotients. */
  lemma QuotientUnique(p: nat, r: nat, q: nat, s: nat, m: nat)
    requires r < m && s < m && p * m + r == q * m + s
    ensures p == q
  {
    Scale(if p < q then p + 1 else q, q, m);
    Scale(if q < p then q + 1 else p, p, m);
    assert (p + 1) * m == p * m + m && (q + 1) * m == q * m + m;
  }

  lemma Beyond(q: nat, k: nat, d: nat, m: nat)
    requires q * m <= d < k * m
    ensures (q + 1) * m <= k * m
  {
    Scale(if k <= q then k else q, q, m);
    Scale(if k > q then q + 1 else k, k, m);
  }

  /** No earlier instant after now lies a whole number of intervals after start. */
  lemma NothingSooner(start: nat, now: nat, interval: nat, k: nat)
    requires interval > 0 && start <= now && start + k * interval > now
    ensures Due(start, now, interval) <= start + k * interval
  {
    var d := now - start;
    var q := Quotient(d, interval);
    Beyond(q, k, d, interval);
    DueIsNext(start, now, interval);
  }

  lemma Quotient(d: nat, m: nat) returns (q: nat)
    requires m > 0
    ensures q == d / m && q * m <= d
  {
    q := d / m;
  }

  lemma QuotientBelow(d: nat, m: nat)
    requires m > 0
    ensures d / m * m <= d && d == d / m * m + d % m
  {
  }

  /** Moments whole intervals apart are on the same grids. */
  lemma SameGrid(first: nat, start: nat, due: nat, interval: nat)
    requires interval > 0 && first <= start <= due && (due - start) % interval == 0
    ensures (due - first) % interval == 0 <==> (start - first) % interval == 0
  {
    QuotientBelow(due - start, interval);
    AddMultiple(start - first, (due - start) / interval, interval);
  }

  lemma AddMultiple(a: nat, k: nat, m: nat)
    requires m > 0
    ensures (a + k * m) % m == a % m
  {
    QuotientBelow(a, m);
    QuotientBelow(a + k * m, m);
    Distribute(a / m, k, m);
    QuotientUnique((a + k * m) / m, (a + k * m) % m, a / m + k, a % m, m);
  }

  lemma Distribute(j: nat, k: nat, m: nat)
    ensures (j + k) * m == j * m + k * m
  {
  }
}
