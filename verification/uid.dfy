/**
 * Unique identifiers (uid.c): {time, pid, counter}, compared field by field,
 * with the all-zero value as the "bad" sentinel.
 *
 * UIDCreate reads the clock and the process id and takes the pre-increment
 * value of a process-wide counter. Here the clock and the pid are parameters
 * and the counter is an explicit Generator value threaded through calls.
 */
module UniqueId {

  datatype Uid = Uid(time: int, pid: int, counter: nat)

  /** The process-wide counter behind UIDCreate. */
  datatype Generator = Generator(counter: nat)

  /** The counter's state when the process starts. */
  const Initial: Generator := Generator(0)

  /** UIDIsSame: equality of all three fields. */
  predicate IsSame(a: Uid, b: Uid)
  {
    a.time == b.time && a.pid == b.pid && a.counter == b.counter
  }

  /** Field-wise equality is exactly value equality, hence reflexive, symmetric and transitive. */
  lemma IsSameIsEquality(a: Uid, b: Uid)
    ensures IsSame(a, b) <==> a == b
  {
  }

  /** UIDIsBad: all three fields are zero. */
  predicate IsBad(u: Uid)
  {
    u.time == 0 && u.pid == 0 && u.counter == 0
  }

  /** UIDCreateBad: the all-zero value (also what a zero-initialised unique_id_t holds). */
  function CreateBad(): (u: Uid)
    ensures IsBad(u)
    ensures forall v :: IsBad(v) ==> v == u
  {
    Uid(0, 0, 0)
  }

  /** UIDCreate: stamp the time and pid given, take the counter and advance it. */
  function Create(g: Generator, now: int, pid: int): (r: (Uid, Generator))
    ensures r.0.time == now && r.0.pid == pid
    ensures r.0.counter == g.counter && r.1.counter == g.counter + 1
    ensures now != 0 || pid != 0 || g.counter != 0 ==> !IsBad(r.0)
  {
    (Uid(now, pid, g.counter), Generator(g.counter + 1))
  }

  /** Two successive calls never produce the same identifier, whatever the clock and pid say. */
  lemma SuccessiveAreDistinct(g: Generator, now1: int, pid1: int, now2: int, pid2: int)
    ensures var (u1, g1) := Create(g, now1, pid1);
            var (u2, _) := Create(g1, now2, pid2);
            !IsSame(u1, u2) && u1.counter < u2.counter
  {
  }

  /** A run of UIDCreate calls, one per clock reading, in one process. */
  function CreateMany(g: Generator, times: seq<int>, pid: int): (r: (seq<Uid>, Generator))
    ensures |r.0| == |times|
    ensures r.1.counter == g.counter + |times|
    ensures forall i :: 0 <= i < |r.0| ==> g.counter <= r.0[i].counter < r.1.counter
    ensures forall i, j :: 0 <= i < j < |r.0| ==> r.0[i].counter < r.0[j].counter
    decreases |times|
  {
    if |times| == 0 then ([], g)
    else
      var (u, g1) := Create(g, times[0], pid);
      var (us, g2) := CreateMany(g1, times[1..], pid);
      ([u] + us, g2)
  }

  /** All identifiers of such a run are pairwise different. */
  lemma CreateManyDistinct(g: Generator, times: seq<int>, pid: int)
    ensures var us := CreateMany(g, times, pid).0;
            forall i, j :: 0 <= i < j < |us| ==> !IsSame(us[i], us[j])
  {
  }
}
