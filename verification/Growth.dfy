/** How a buffer's reserve grows (`Buffer::prepare`) and what is reported to the
    JavaScript heap (`Buffer::Buffer`, `Buffer::realloc`, `Buffer::~Buffer`). */
module Growth {

  /** The growth loop: triple until the demand fits. */
  function Grown(reserve: nat, demand: nat): (r: nat)
    requires reserve >= 1
    ensures r >= reserve && r >= demand
    decreases demand - reserve
  {
    if demand > reserve then Grown(reserve * 3, demand) else reserve
  }

  function Pow3(k: nat): (p: nat)
    ensures p >= 1
  {
    if k == 0 then 1 else 3 * Pow3(k - 1)
  }

  function Max(a: nat, b: nat): nat { if a < b then b else a }

  /** Reserve after a run of demands. */
  function GrownAll(reserve: nat, demands: seq<nat>): (r: nat)
    requires reserve >= 1
    ensures r >= reserve
  {
    if demands == [] then reserve
    else Grown(GrownAll(reserve, demands[..|demands| - 1]), demands[|demands| - 1])
  }

  function Peak(demands: seq<nat>): nat {
    if demands == [] then 0 else Max(Peak(demands[..|demands| - 1]), demands[|demands| - 1])
  }

  /** Bytes moved by the reallocations: each one that grows moves the whole old block. */
  function Copied(reserve: nat, demands: seq<nat>): nat
    requires reserve >= 1
  {
    if demands == [] then 0
    else
      var before := GrownAll(reserve, demands[..|demands| - 1]);
      Copied(reserve, demands[..|demands| - 1])
        + if demands[|demands| - 1] > before then before else 0
  }

  lemma OneMorePower(r: nat, k: nat)
    ensures r * 3 * Pow3(k) == r * Pow3(k + 1)
  {
    assert Pow3(k + 1) == 3 * Pow3(k);
  }

  /** The new reserve is the least `reserve * 3^k` that meets the demand. */
  lemma {:induction false} GrownIsLeastPower(reserve: nat, demand: nat) returns (k: nat)
    requires reserve >= 1
    ensures Grown(reserve, demand) == reserve * Pow3(k) >= demand
    ensures forall j :: 0 <= j < k ==> reserve * Pow3(j) < demand
    decreases demand - reserve
  {
    if demand > reserve {
      var k' := GrownIsLeastPower(reserve * 3, demand);
      k := k' + 1;
      OneMorePower(reserve, k');
      forall j | 0 <= j < k ensures reserve * Pow3(j) < demand {
        if j > 0 {
          OneMorePower(reserve, j - 1);
        }
      }
    } else {
      k := 0;
    }
  }

  lemma {:induction false} GrownTwice(reserve: nat, a: nat, b: nat)
    requires reserve >= 1
    ensures Grown(Grown(reserve, a), b) == Grown(reserve, Max(a, b))
    decreases a - reserve
  {
    if a > reserve {
      GrownTwice(reserve * 3, a, b);
    }
  }

  lemma {:induction false} GrownSteps(reserve: nat, demand: nat)
    requires reserve >= 1
    ensures Grown(reserve, demand) == reserve || 3 * reserve <= Grown(reserve, demand) <= 3 * demand - 3
    decreases demand - reserve
  {
    if demand > reserve {
      GrownSteps(reserve * 3, demand);
    }
  }

  /** Only the peak demand matters, however the run reached it. */
  lemma {:induction false} ReserveFollowsPeak(reserve: nat, demands: seq<nat>)
    requires reserve >= 1
    ensures GrownAll(reserve, demands) == Grown(reserve, Peak(demands))
  {
    if demands != [] {
      var front, last := demands[..|demands| - 1], demands[|demands| - 1];
      ReserveFollowsPeak(reserve, front);
      GrownTwice(reserve, Peak(front), last);
    }
  }

  /** Tripling pays for itself: all the moving so far is under half of what is reserved now. */
  lemma {:induction false} CopyingIsAmortised(reserve: nat, demands: seq<nat>)
    requires reserve >= 1
    ensures 2 * Copied(reserve, demands) + reserve <= GrownAll(reserve, demands)
  {
    if demands != [] {
      var front := demands[..|demands| - 1];
      CopyingIsAmortised(reserve, front);
      GrownSteps(GrownAll(reserve, front), demands[|demands| - 1]);
    }
  }

  /** The reserve stays within three times the peak demand, or never grew. */
  lemma ReserveBounded(reserve: nat, demands: seq<nat>)
    requires reserve >= 1
    ensures GrownAll(reserve, demands) == reserve || GrownAll(reserve, demands) <= 3 * Peak(demands) - 3
  {
    ReserveFollowsPeak(reserve, demands);
    GrownSteps(reserve, Peak(demands));
  }

  /** `reserve` and `copied` are what a run of demands leaves behind. */
  ghost predicate GrownBy(initial: nat, demands: seq<nat>, reserve: nat, copied: nat) {
    initial >= 1 && reserve == GrownAll(initial, demands) && copied == Copied(initial, demands)
  }

  lemma OneMoreDemand(initial: nat, demands: seq<nat>, reserve: nat, copied: nat, demand: nat)
    requires GrownBy(initial, demands, reserve, copied)
    ensures reserve >= 1
    ensures var r := Grown(reserve, demand);
      GrownBy(initial, demands + [demand], r, if r > reserve then copied + reserve else copied)
  {
    var all := demands + [demand];
    assert all[..|all| - 1] == demands;
  }

  // ---- memory accounting ----

  /** What happens to buffers: `K` is what names them. */
  datatype MemoryEvent<K> =
    | Construct(id: K, reserve: nat)
    | Grow(id: K, reserve: nat)
    | Destroy(id: K)

  /** `adjusted` is the running total given to the heap, `live` the reserve of each live buffer. */
  datatype Ledger<K> = Ledger(adjusted: int, live: map<K, nat>)

  predicate Possible<K>(l: Ledger<K>, e: MemoryEvent<K>) {
    match e
    case Construct(id, _) => id !in l.live
    case Grow(id, _) => id in l.live
    case Destroy(id) => id in l.live
  }

  /** The adjustments of the constructor, of `realloc` and of the destructor;
      `overhead` is the size of a buffer object plus the fixed 128 bytes. */
  function Account<K>(overhead: nat, l: Ledger<K>, e: MemoryEvent<K>): Ledger<K>
    requires Possible(l, e)
  {
    match e
    case Construct(id, r) => Ledger(l.adjusted + (overhead + r), l.live[id := r])
    case Grow(id, r) => Ledger(l.adjusted + (r - l.live[id]), l.live[id := r])
    case Destroy(id) => Ledger(l.adjusted - (overhead + l.live[id]), l.live - {id})
  }

  predicate PossibleRun<K>(overhead: nat, l: Ledger<K>, run: seq<MemoryEvent<K>>)
    decreases |run|
  {
    run == [] || (Possible(l, run[0]) && PossibleRun(overhead, Account(overhead, l, run[0]), run[1..]))
  }

  function AccountAll<K>(overhead: nat, l: Ledger<K>, run: seq<MemoryEvent<K>>): Ledger<K>
    requires PossibleRun(overhead, l, run)
    decreases |run|
  {
    if run == [] then l else AccountAll(overhead, Account(overhead, l, run[0]), run[1..])
  }

  /** What the live buffers occupy. */
  ghost function Occupied<K>(overhead: nat, live: map<K, nat>): nat {
    if live == map[] then 0
    else
      var id :| id in live;
      overhead + live[id] + Occupied(overhead, live - {id})
  }

  lemma {:induction false} OccupiedWithout<K>(overhead: nat, live: map<K, nat>, id: K)
    requires id in live
    ensures Occupied(overhead, live) == overhead + live[id] + Occupied(overhead, live - {id})
    decreases |live|
  {
    var first :| first in live
      && Occupied(overhead, live) == overhead + live[first] + Occupied(overhead, live - {first});
    if first != id {
      OccupiedWithout(overhead, live - {first}, id);
      OccupiedWithout(overhead, live - {id}, first);
      assert live - {first} - {id} == live - {id} - {first};
    }
  }

  lemma OccupiedWith<K>(overhead: nat, live: map<K, nat>, id: K, r: nat)
    ensures Occupied(overhead, live[id := r]) == overhead + r + Occupied(overhead, live - {id})
  {
    OccupiedWithout(overhead, live[id := r], id);
    assert live[id := r] - {id} == live - {id};
  }

  lemma AccountKeepsBalance<K>(overhead: nat, l: Ledger<K>, e: MemoryEvent<K>)
    requires Possible(l, e)
    requires l.adjusted == Occupied(overhead, l.live)
    ensures var l' := Account(overhead, l, e); l'.adjusted == Occupied(overhead, l'.live)
  {
    match e
    case Construct(id, r) =>
      OccupiedWith(overhead, l.live, id, r);
      assert l.live - {id} == l.live;
    case Grow(id, r) =>
      OccupiedWith(overhead, l.live, id, r);
      OccupiedWithout(overhead, l.live, id);
    case Destroy(id) =>
      OccupiedWithout(overhead, l.live, id);
  }

  /** Accounting is conserved over any run: what was reported is what the live buffers
      occupy, so it is zero again once all of them are gone. */
  lemma {:induction false} AccountingConserved<K>(overhead: nat, l: Ledger<K>, run: seq<MemoryEvent<K>>)
    requires PossibleRun(overhead, l, run)
    requires l.adjusted == Occupied(overhead, l.live)
    ensures var l' := AccountAll(overhead, l, run);
      && l'.adjusted == Occupied(overhead, l'.live)
      && (l'.live == map[] ==> l'.adjusted == 0)
    decreases |run|
  {
    if run != [] {
      AccountKeepsBalance(overhead, l, run[0]);
      AccountingConserved(overhead, Account(overhead, l, run[0]), run[1..]);
    }
  }
}
