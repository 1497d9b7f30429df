/**
 * The benchmark driver of rib-bench: the five backends held in package globals, the insert,
 * lookup, walk and delete phases over the decoded prefix sequence, the repetition loop of
 * `benchmark.run`, and the size checks of `main`. Timing is not modelled.
 */
module RibBench {
  import opened Values
  import opened Prefixes
  import opened Keys
  import opened Backends

  datatype Backend = StringKeyMap | IntKeyMap | MutableRadix | ImmutableRadix | Critbit
  datatype Op = Insert | Lookup | Walk | Delete
  datatype Phase = Phase(op: Op, backend: Backend)

  predicate AllEncodable(ps: seq<Prefix>) {
    forall i :: 0 <= i < |ps| ==> Encodable(ps[i])
  }

  function StringKeys(ps: seq<Prefix>): (ks: seq<seq<byte>>)
    ensures |ks| == |ps|
  {
    seq(|ps|, i requires 0 <= i < |ps| => StringKey(ps[i]))
  }

  function IntKeys(ps: seq<Prefix>): (ks: seq<u64>)
    requires AllEncodable(ps)
    ensures |ks| == |ps|
  {
    seq(|ps|, i requires 0 <= i < |ps| => IntKey(ps[i]))
  }

  function RadixKeys(ps: seq<Prefix>): (ks: seq<seq<byte>>)
    ensures |ks| == |ps|
  {
    seq(|ps|, i requires 0 <= i < |ps| => RadixKey(ps[i]))
  }

  function RadixStringKeys(ps: seq<Prefix>): (ks: seq<string>)
    requires AllEncodable(ps)
    ensures |ks| == |ps|
  {
    seq(|ps|, i requires 0 <= i < |ps| => RadixStringKeyOf(ps[i]))
  }

  /**
   * What the five package globals hold: the two Go maps, and for each trie the map it
   * represents, or None while the global is still a nil pointer.
   */
  datatype Snapshot = Snapshot(
    stringMap: map<seq<byte>, Prefix>,
    intMap: map<u64, Prefix>,
    ir: Option<map<seq<byte>, Prefix>>,
    mr: Option<map<string, Prefix>>,
    cri: Option<map<seq<byte>, Prefix>>)

  /** The globals before any phase: nil maps (empty) and nil tries. */
  const INITIAL: Snapshot := Snapshot(map[], map[], None, None, None)

  function RemoveKeys<K, V>(o: Option<map<K, V>>, ks: set<K>): Option<map<K, V>> {
    match o
    case None => None
    case Some(m) => Some(m - ks)
  }

  /** A phase can run: inserting always can; the others need the trie they use to exist. */
  predicate PhaseEnabled(phase: Phase, s: Snapshot) {
    phase.op == Insert ||
    match phase.backend
    case StringKeyMap => true
    case IntKeyMap => true
    case MutableRadix => s.mr.Some?
    case ImmutableRadix => s.ir.Some?
    case Critbit => s.cri.Some?
  }

  /**
   * The effect of one run of a phase function on the globals. An insert starts from a fresh
   * backend; a delete removes the key of every prefix; lookups and walks only read.
   */
  function Step(phase: Phase, ps: seq<Prefix>, s: Snapshot): Snapshot
    requires AllEncodable(ps)
  {
    match phase.op
    case Insert => (
      match phase.backend
      case StringKeyMap => s.(stringMap := Assign(StringKeys(ps), ps))
      case IntKeyMap => s.(intMap := Assign(IntKeys(ps), ps))
      case MutableRadix => s.(mr := Some(Assign(RadixStringKeys(ps), ps)))
      case ImmutableRadix => s.(ir := Some(Assign(RadixKeys(ps), ps)))
      case Critbit => s.(cri := Some(AssignFirst(RadixKeys(ps), ps))))
    case Lookup => s
    case Walk => s
    case Delete => (
      match phase.backend
      case StringKeyMap => s.(stringMap := s.stringMap - KeySet(StringKeys(ps)))
      case IntKeyMap => s.(intMap := s.intMap - KeySet(IntKeys(ps)))
      case MutableRadix => s.(mr := RemoveKeys(s.mr, KeySet(RadixStringKeys(ps))))
      case ImmutableRadix => s.(ir := RemoveKeys(s.ir, KeySet(RadixKeys(ps))))
      case Critbit => s.(cri := RemoveKeys(s.cri, KeySet(RadixKeys(ps)))))
  }

  /** Running a phase again gives the same globals: a re-insert rebuilds the same backend and a re-delete finds nothing. */
  lemma StepIdempotent(phase: Phase, ps: seq<Prefix>, s: Snapshot)
    requires AllEncodable(ps)
    ensures Step(phase, ps, Step(phase, ps, s)) == Step(phase, ps, s)
    ensures PhaseEnabled(phase, s) ==> PhaseEnabled(phase, Step(phase, ps, s))
  {
    if phase.op == Delete {
      match phase.backend
      case StringKeyMap =>
        var ks := KeySet(StringKeys(ps));
        assert s.stringMap - ks - ks == s.stringMap - ks;
      case IntKeyMap =>
        var ks := KeySet(IntKeys(ps));
        assert s.intMap - ks - ks == s.intMap - ks;
      case MutableRadix =>
        var ks := KeySet(RadixStringKeys(ps));
        if s.mr.Some? { assert s.mr.value - ks - ks == s.mr.value - ks; }
      case ImmutableRadix =>
        var ks := KeySet(RadixKeys(ps));
        if s.ir.Some? { assert s.ir.value - ks - ks == s.ir.value - ks; }
      case Critbit =>
        var ks := KeySet(RadixKeys(ps));
        if s.cri.Some? { assert s.cri.value - ks - ks == s.cri.value - ks; }
    }
  }

  /** `b.run(name, f)` without the timing: `f` runs `count` times (not at all when `count < 1`). */
  function Repeat(count: int, phase: Phase, ps: seq<Prefix>, s: Snapshot): Snapshot
    requires AllEncodable(ps)
  {
    if count >= 1 then Step(phase, ps, s) else s
  }

  /** The result of `main`: success, the exit of the size checker, or a nil-pointer panic. */
  datatype Outcome =
    | Pass
    | SizeMismatch(backend: Backend, actual: int, expected: int)
    | NilBackend(backend: Backend)

  /** The size checker `f`: it exits, naming the backend, the actual and the expected size, exactly when they differ. */
  function SizeCheck(backend: Backend, actual: int, expected: int): (r: Outcome)
    ensures r == Pass <==> actual == expected
    ensures r != Pass ==> r == SizeMismatch(backend, actual, expected)
  {
    if actual != expected then SizeMismatch(backend, actual, expected) else Pass
  }

  /** The size argument of a check: `len` of a Go map, `Len`/`Size` of a trie (a panic on a nil one). */
  function SnapshotSize(s: Snapshot, b: Backend): Option<nat> {
    match b
    case StringKeyMap => Some(|s.stringMap|)
    case IntKeyMap => Some(|s.intMap|)
    case MutableRadix => if s.mr.Some? then Some(|s.mr.value|) else None
    case ImmutableRadix => if s.ir.Some? then Some(|s.ir.value|) else None
    case Critbit => if s.cri.Some? then Some(|s.cri.value|) else None
  }

  /** One call of `f`, with its size argument evaluated first. */
  function Check(size: Option<nat>, b: Backend, expected: int): (r: Outcome)
    ensures r == Pass <==> size == Some(expected)
    ensures size.None? ==> r == NilBackend(b)
  {
    match size
    case None => NilBackend(b)
    case Some(n) => SizeCheck(b, n, expected)
  }

  /** Sequencing in `main`: a failing check ends the run, a passing one goes on. */
  function AndThen(first: Outcome, next: Outcome): (r: Outcome)
    ensures r == Pass <==> first == Pass && next == Pass
    ensures first != Pass ==> r == first
  {
    if first != Pass then first else next
  }

  /** The five checks after the INSERT phases, in `main`'s order. */
  function PostInsertChecks(s: Snapshot, expected: int): Outcome {
    AndThen(Check(SnapshotSize(s, StringKeyMap), StringKeyMap, expected),
    AndThen(Check(SnapshotSize(s, IntKeyMap), IntKeyMap, expected),
    AndThen(Check(SnapshotSize(s, ImmutableRadix), ImmutableRadix, expected),
    AndThen(Check(SnapshotSize(s, MutableRadix), MutableRadix, expected),
            Check(SnapshotSize(s, Critbit), Critbit, expected)))))
  }

  /** The five checks after the DELETE phases, in `main`'s order. */
  function PostDeleteChecks(s: Snapshot): Outcome {
    AndThen(Check(SnapshotSize(s, StringKeyMap), StringKeyMap, 0),
    AndThen(Check(SnapshotSize(s, IntKeyMap), IntKeyMap, 0),
    AndThen(Check(SnapshotSize(s, MutableRadix), MutableRadix, 0),
    AndThen(Check(SnapshotSize(s, ImmutableRadix), ImmutableRadix, 0),
            Check(SnapshotSize(s, Critbit), Critbit, 0)))))
  }

  /** The globals after the INSERT block of `main`. */
  function AfterInserts(count: int, ps: seq<Prefix>): Snapshot
    requires AllEncodable(ps)
  {
    var s1 := Repeat(count, Phase(Insert, StringKeyMap), ps, INITIAL);
    var s2 := Repeat(count, Phase(Insert, IntKeyMap), ps, s1);
    var s3 := Repeat(count, Phase(Insert, MutableRadix), ps, s2);
    var s4 := Repeat(count, Phase(Insert, ImmutableRadix), ps, s3);
    Repeat(count, Phase(Insert, Critbit), ps, s4)
  }

  /** The globals after the DELETE block of `main` (the LOOKUP and WALK blocks change nothing). */
  function AfterDeletes(count: int, ps: seq<Prefix>, s: Snapshot): Snapshot
    requires AllEncodable(ps)
  {
    var s1 := Repeat(count, Phase(Delete, StringKeyMap), ps, s);
    var s2 := Repeat(count, Phase(Delete, IntKeyMap), ps, s1);
    var s3 := Repeat(count, Phase(Delete, MutableRadix), ps, s2);
    var s4 := Repeat(count, Phase(Delete, ImmutableRadix), ps, s3);
    Repeat(count, Phase(Delete, Critbit), ps, s4)
  }

  /** What `main` ends with, for a decoded prefix sequence and the repetition count. */
  function BenchmarkOutcome(ps: seq<Prefix>, count: int): Outcome
    requires AllEncodable(ps)
  {
    var inserted := AfterInserts(count, ps);
    AndThen(PostInsertChecks(inserted, |ps|), PostDeleteChecks(AfterDeletes(count, ps, inserted)))
  }

  /** The globals once every INSERT phase has run: each backend holds what its insert loop wrote. */
  function Filled(ps: seq<Prefix>): Snapshot
    requires AllEncodable(ps)
  {
    Snapshot(Assign(StringKeys(ps), ps), Assign(IntKeys(ps), ps),
             Some(Assign(RadixKeys(ps), ps)), Some(Assign(RadixStringKeys(ps), ps)),
             Some(AssignFirst(RadixKeys(ps), ps)))
  }

  /** Every map empty and every trie allocated. */
  const EMPTIED: Snapshot := Snapshot(map[], map[], Some(map[]), Some(map[]), Some(map[]))

  lemma InsertsFill(ps: seq<Prefix>, count: int)
    requires AllEncodable(ps) && count >= 1
    ensures AfterInserts(count, ps) == Filled(ps)
  {
  }

  /** Backend `b` exists in `s` and holds only keys the encoder of `b` yields for some prefix of `ps`. */
  predicate Written(s: Snapshot, ps: seq<Prefix>, b: Backend)
    requires AllEncodable(ps)
  {
    match b
    case StringKeyMap => s.stringMap.Keys <= KeySet(StringKeys(ps))
    case IntKeyMap => s.intMap.Keys <= KeySet(IntKeys(ps))
    case MutableRadix => s.mr.Some? && s.mr.value.Keys <= KeySet(RadixStringKeys(ps))
    case ImmutableRadix => s.ir.Some? && s.ir.value.Keys <= KeySet(RadixKeys(ps))
    case Critbit => s.cri.Some? && s.cri.value.Keys <= KeySet(RadixKeys(ps))
  }

  /** `s` with backend `b` emptied (a trie stays allocated). */
  function Cleared(s: Snapshot, b: Backend): Snapshot {
    match b
    case StringKeyMap => s.(stringMap := map[])
    case IntKeyMap => s.(intMap := map[])
    case MutableRadix => s.(mr := Some(map[]))
    case ImmutableRadix => s.(ir := Some(map[]))
    case Critbit => s.(cri := Some(map[]))
  }

  /** Every insert phase writes only the keys of the prefixes. */
  lemma FilledWritten(ps: seq<Prefix>, b: Backend)
    requires AllEncodable(ps)
    ensures Written(Filled(ps), ps, b)
  {
    match b
    case StringKeyMap => AssignKeys(StringKeys(ps), ps);
    case IntKeyMap => AssignKeys(IntKeys(ps), ps);
    case MutableRadix => AssignKeys(RadixStringKeys(ps), ps);
    case ImmutableRadix => AssignKeys(RadixKeys(ps), ps);
    case Critbit => AssignKeys(RadixKeys(ps), ps);
  }

  lemma ClearedKeepsWritten(s: Snapshot, ps: seq<Prefix>, b: Backend, c: Backend)
    requires AllEncodable(ps) && Written(s, ps, c)
    ensures Written(Cleared(s, b), ps, c)
  {
  }

  /** A delete phase empties a backend that holds only keys of the prefixes. */
  lemma DeleteEmptiesWritten(b: Backend, ps: seq<Prefix>, count: int, s: Snapshot)
    requires AllEncodable(ps) && count >= 1 && Written(s, ps, b)
    ensures Repeat(count, Phase(Delete, b), ps, s) == Cleared(s, b)
  {
    match b
    case StringKeyMap => DeleteWrittenKeys(s.stringMap, StringKeys(ps));
    case IntKeyMap => DeleteWrittenKeys(s.intMap, IntKeys(ps));
    case MutableRadix => DeleteWrittenKeys(s.mr.value, RadixStringKeys(ps));
    case ImmutableRadix => DeleteWrittenKeys(s.ir.value, RadixKeys(ps));
    case Critbit => DeleteWrittenKeys(s.cri.value, RadixKeys(ps));
  }

  /** With at least one repetition, the DELETE block removes every key the INSERT block wrote. */
  lemma DeletesEmpty(ps: seq<Prefix>, count: int)
    requires AllEncodable(ps) && count >= 1
    ensures AfterDeletes(count, ps, Filled(ps)) == EMPTIED
  {
    var s0 := Filled(ps);
    FilledWritten(ps, StringKeyMap);
    FilledWritten(ps, IntKeyMap);
    FilledWritten(ps, MutableRadix);
    FilledWritten(ps, ImmutableRadix);
    FilledWritten(ps, Critbit);
    DeleteEmptiesWritten(StringKeyMap, ps, count, s0);
    var s1 := Cleared(s0, StringKeyMap);
    DeleteEmptiesWritten(IntKeyMap, ps, count, s1);
    var s2 := Cleared(s1, IntKeyMap);
    DeleteEmptiesWritten(MutableRadix, ps, count, s2);
    var s3 := Cleared(s2, MutableRadix);
    DeleteEmptiesWritten(ImmutableRadix, ps, count, s3);
    var s4 := Cleared(s3, ImmutableRadix);
    DeleteEmptiesWritten(Critbit, ps, count, s4);
  }

  /** With at least one repetition, the outcome is that of the post-insert checks on the filled backends. */
  lemma OutcomeIsPostInsertChecks(ps: seq<Prefix>, count: int)
    requires AllEncodable(ps) && count >= 1
    ensures BenchmarkOutcome(ps, count) == PostInsertChecks(Filled(ps), |ps|)
  {
    InsertsFill(ps, count);
    DeletesEmpty(ps, count);
    assert PostDeleteChecks(EMPTIED) == Pass;
  }

  /** The number of different keys the encoder of backend `b` gives the prefixes. */
  function KeyCount(ps: seq<Prefix>, b: Backend): nat
    requires AllEncodable(ps)
  {
    match b
    case StringKeyMap => |KeySet(StringKeys(ps))|
    case IntKeyMap => |KeySet(IntKeys(ps))|
    case MutableRadix => |KeySet(RadixStringKeys(ps))|
    case ImmutableRadix => |KeySet(RadixKeys(ps))|
    case Critbit => |KeySet(RadixKeys(ps))|
  }

  /** The encoder of backend `b` gives every prefix its own key. */
  predicate KeysDistinct(ps: seq<Prefix>, b: Backend)
    requires AllEncodable(ps)
  {
    match b
    case StringKeyMap => Distinct(StringKeys(ps))
    case IntKeyMap => Distinct(IntKeys(ps))
    case MutableRadix => Distinct(RadixStringKeys(ps))
    case ImmutableRadix => Distinct(RadixKeys(ps))
    case Critbit => Distinct(RadixKeys(ps))
  }

  /** After the INSERT block a backend holds one entry per different key, which is one per prefix exactly when the keys are distinct. */
  lemma FilledSize(ps: seq<Prefix>, b: Backend)
    requires AllEncodable(ps)
    ensures SnapshotSize(Filled(ps), b) == Some(KeyCount(ps, b))
    ensures KeyCount(ps, b) == |ps| <==> KeysDistinct(ps, b)
  {
    match b
    case StringKeyMap => AssignSize(StringKeys(ps), ps);
    case IntKeyMap => AssignSize(IntKeys(ps), ps);
    case MutableRadix => AssignSize(RadixStringKeys(ps), ps);
    case ImmutableRadix => AssignSize(RadixKeys(ps), ps);
    case Critbit => AssignSize(RadixKeys(ps), ps);
  }

  /** The post-insert checks pass exactly when every backend exists and has the expected size. */
  lemma PostInsertChecksPassIff(s: Snapshot, expected: int)
    ensures PostInsertChecks(s, expected) == Pass <==>
              forall b :: SnapshotSize(s, b) == Some(expected)
  {
    if forall b :: SnapshotSize(s, b) == Some(expected) {
    } else {
      var b :| SnapshotSize(s, b) != Some(expected);
      match b
      case StringKeyMap =>
      case IntKeyMap =>
      case MutableRadix =>
      case ImmutableRadix =>
      case Critbit =>
    }
  }

  /**
   * With at least one repetition, the run succeeds exactly when no encoder maps two input
   * prefixes to one key: the post-insert sizes are the numbers of distinct keys.
   */
  lemma BenchmarkPassesIffKeysDistinct(ps: seq<Prefix>, count: int)
    requires AllEncodable(ps) && count >= 1
    ensures BenchmarkOutcome(ps, count) == Pass <==>
              Distinct(StringKeys(ps)) && Distinct(IntKeys(ps)) &&
              Distinct(RadixKeys(ps)) && Distinct(RadixStringKeys(ps))
  {
    OutcomeIsPostInsertChecks(ps, count);
    FilledChecksPassIff(ps);
  }

  lemma FilledChecksPassIff(ps: seq<Prefix>)
    requires AllEncodable(ps)
    ensures PostInsertChecks(Filled(ps), |ps|) == Pass <==>
              Distinct(StringKeys(ps)) && Distinct(IntKeys(ps)) &&
              Distinct(RadixKeys(ps)) && Distinct(RadixStringKeys(ps))
  {
    var s := Filled(ps);
    forall b
      ensures SnapshotSize(s, b) == Some(KeyCount(ps, b))
      ensures KeyCount(ps, b) == |ps| <==> KeysDistinct(ps, b)
    {
      FilledSize(ps, b);
    }
    SizesChecksPassIff(s, ps);
    assert KeysDistinct(ps, StringKeyMap) && KeysDistinct(ps, IntKeyMap) &&
           KeysDistinct(ps, MutableRadix) && KeysDistinct(ps, ImmutableRadix) <==>
           Distinct(StringKeys(ps)) && Distinct(IntKeys(ps)) &&
           Distinct(RadixKeys(ps)) && Distinct(RadixStringKeys(ps));
  }

  /** When every backend holds one entry per different key, the post-insert checks pass exactly when every encoder's keys are distinct. */
  lemma SizesChecksPassIff(s: Snapshot, ps: seq<Prefix>)
    requires AllEncodable(ps)
    requires forall b :: SnapshotSize(s, b) == Some(KeyCount(ps, b))
    requires forall b :: KeyCount(ps, b) == |ps| <==> KeysDistinct(ps, b)
    ensures PostInsertChecks(s, |ps|) == Pass <==>
              KeysDistinct(ps, StringKeyMap) && KeysDistinct(ps, IntKeyMap) &&
              KeysDistinct(ps, MutableRadix) && KeysDistinct(ps, ImmutableRadix)
  {
    PostInsertChecksPassIff(s, |ps|);
    assert KeysDistinct(ps, ImmutableRadix) == KeysDistinct(ps, Critbit);
  }

  /** Decoded, canonical IPv4 prefixes, pairwise different. */
  predicate DecodedCanonical(ps: seq<Prefix>) {
    (forall i :: 0 <= i < |ps| ==> WellFormed(ps[i]) && Canonical(ps[i])) && Distinct(ps)
  }

  lemma DecodedCanonicalEncodable(ps: seq<Prefix>)
    requires DecodedCanonical(ps)
    ensures AllEncodable(ps)
  {
    forall i | 0 <= i < |ps| ensures Encodable(ps[i]) { WellFormedIsEncodable(ps[i]); }
  }

  /** Every encoder gives different decoded canonical prefixes different keys. */
  lemma DecodedCanonicalKeysDistinct(ps: seq<Prefix>, b: Backend)
    requires DecodedCanonical(ps)
    ensures AllEncodable(ps) && KeysDistinct(ps, b)
  {
    DecodedCanonicalEncodable(ps);
    match b
    case StringKeyMap =>
      forall i, j | 0 <= i < j < |ps| ensures StringKeys(ps)[i] != StringKeys(ps)[j] {
        StringKeyInjective(ps[i], ps[j]);
      }
    case IntKeyMap =>
      forall i, j | 0 <= i < j < |ps| ensures IntKeys(ps)[i] != IntKeys(ps)[j] {
        IntKeyInjective(ps[i], ps[j]);
      }
    case MutableRadix =>
      forall i, j | 0 <= i < j < |ps| ensures RadixStringKeys(ps)[i] != RadixStringKeys(ps)[j] {
        RadixStringKeyInjective(ps[i], ps[j]);
      }
    case ImmutableRadix =>
    case Critbit =>
  }

  /** Decoded, canonical, pairwise different IPv4 prefixes pass every size check. */
  lemma DistinctCanonicalPrefixesPass(ps: seq<Prefix>, count: int)
    requires count >= 1 && DecodedCanonical(ps)
    ensures AllEncodable(ps) && BenchmarkOutcome(ps, count) == Pass
  {
    DecodedCanonicalKeysDistinct(ps, StringKeyMap);
    DecodedCanonicalKeysDistinct(ps, IntKeyMap);
    DecodedCanonicalKeysDistinct(ps, MutableRadix);
    DecodedCanonicalKeysDistinct(ps, ImmutableRadix);
    BenchmarkPassesIffKeysDistinct(ps, count);
  }

  /** The byte-string and int encoders give pairwise different decoded IPv4 prefixes pairwise different keys. */
  lemma DistinctPrefixesDistinctKeys(ps: seq<Prefix>)
    requires Distinct(ps)
    requires forall i :: 0 <= i < |ps| ==> WellFormed(ps[i]) && ps[i].IPv4Prefix?
    ensures AllEncodable(ps) && KeysDistinct(ps, StringKeyMap) && KeysDistinct(ps, IntKeyMap)
  {
    forall i | 0 <= i < |ps| ensures Encodable(ps[i]) { WellFormedIsEncodable(ps[i]); }
    forall i, j | 0 <= i < j < |ps| ensures StringKeys(ps)[i] != StringKeys(ps)[j] {
      StringKeyInjective(ps[i], ps[j]);
    }
    forall i, j | 0 <= i < j < |ps| ensures IntKeys(ps)[i] != IntKeys(ps)[j] {
      IntKeyInjective(ps[i], ps[j]);
    }
  }

  /**
   * Pairwise different decoded IPv4 prefixes, host bits or not, fill the string-key and the
   * int-key map with one entry each, and the DELETE block empties both.
   */
  lemma DistinctPrefixesFillKeyMaps(ps: seq<Prefix>, count: int)
    requires count >= 1 && Distinct(ps)
    requires forall i :: 0 <= i < |ps| ==> WellFormed(ps[i]) && ps[i].IPv4Prefix?
    ensures AllEncodable(ps)
    ensures SnapshotSize(AfterInserts(count, ps), StringKeyMap) == Some(|ps|)
    ensures SnapshotSize(AfterInserts(count, ps), IntKeyMap) == Some(|ps|)
    ensures SnapshotSize(AfterDeletes(count, ps, AfterInserts(count, ps)), StringKeyMap) == Some(0)
    ensures SnapshotSize(AfterDeletes(count, ps, AfterInserts(count, ps)), IntKeyMap) == Some(0)
  {
    DistinctPrefixesDistinctKeys(ps);
    FilledSize(ps, StringKeyMap);
    FilledSize(ps, IntKeyMap);
    InsertsFill(ps, count);
    DeletesEmpty(ps, count);
  }

  /** Without any repetition nothing is inserted: the first check fails, or on empty input the nil immutable tree panics. */
  lemma NoRepetitionOutcome(ps: seq<Prefix>, count: int)
    requires AllEncodable(ps) && count < 1
    ensures BenchmarkOutcome(ps, count) ==
              if |ps| == 0 then NilBackend(ImmutableRadix) else SizeMismatch(StringKeyMap, 0, |ps|)
  {
  }

  /** The string-key check passes and the int-key check fails: the run ends there. */
  lemma IntKeyCheckFails(s: Snapshot, expected: int, actual: int)
    requires SnapshotSize(s, StringKeyMap) == Some(expected)
    requires SnapshotSize(s, IntKeyMap) == Some(actual) && actual != expected
    ensures PostInsertChecks(s, expected) == SizeMismatch(IntKeyMap, actual, expected)
  {
  }

  /** The checks before the mutable radix tree's pass and that one fails: the run ends there. */
  lemma MutableRadixCheckFails(s: Snapshot, expected: int, actual: int)
    requires SnapshotSize(s, StringKeyMap) == Some(expected)
    requires SnapshotSize(s, IntKeyMap) == Some(expected)
    requires SnapshotSize(s, ImmutableRadix) == Some(expected)
    requires SnapshotSize(s, MutableRadix) == Some(actual) && actual != expected
    ensures PostInsertChecks(s, expected) == SizeMismatch(MutableRadix, actual, expected)
  {
  }

  /** The IPv4 default route and the IPv6 default route ::/0. */
  const MIXED_FAMILIES: seq<Prefix> := [DEFAULT_ROUTE_V4, IPv6Prefix(Zeros(16), 0)]

  /** The byte-string encoder tells the two default routes apart. */
  lemma MixedFamiliesStringKeys()
    ensures AllEncodable(MIXED_FAMILIES) && KeyCount(MIXED_FAMILIES, StringKeyMap) == 2
  {
    var ps := MIXED_FAMILIES;
    StringKeyFamiliesDisjoint(ps[0], ps[1]);
    assert StringKeys(ps)[0] == StringKey(ps[0]) && StringKeys(ps)[1] == StringKey(ps[1]);
    assert KeysDistinct(ps, StringKeyMap);
    FilledSize(ps, StringKeyMap);
  }

  /** The int encoder gives both default routes the key 0. */
  lemma MixedFamiliesIntKeys()
    ensures AllEncodable(MIXED_FAMILIES) && KeyCount(MIXED_FAMILIES, IntKeyMap) == 1
  {
    var ps := MIXED_FAMILIES;
    IntKeySentinel(ps[1], ps[0]);
    var ik := IntKeys(ps);
    assert ik[0] == IntKey(ps[0]) && ik[1] == IntKey(ps[1]);
    assert ik == [0, 0];
    assert KeySet(ik) == {0 as u64};
  }

  /** 0.0.0.0/0 and ::/0 share the int key 0, so the int-key map check fails with size 1 of 2. */
  lemma MixedFamiliesFailIntKeyMap(count: int)
    requires count >= 1
    ensures AllEncodable(MIXED_FAMILIES)
    ensures BenchmarkOutcome(MIXED_FAMILIES, count) == SizeMismatch(IntKeyMap, 1, 2)
  {
    MixedFamiliesStringKeys();
    MixedFamiliesIntKeys();
    FilledSize(MIXED_FAMILIES, StringKeyMap);
    FilledSize(MIXED_FAMILIES, IntKeyMap);
    IntKeyCheckFails(Filled(MIXED_FAMILIES), 2, 1);
    OutcomeIsPostInsertChecks(MIXED_FAMILIES, count);
  }

  /** 10.0.0.1/24 and 10.0.0.2/24: two different records of one network, with host bits set. */
  const HOST_BITS_PAIR: seq<Prefix> := [IPv4Prefix([10, 0, 0, 1], 24), IPv4Prefix([10, 0, 0, 2], 24)]

  /** The byte-string, int and radix encoders all tell the two records apart. */
  lemma HostBitsDistinctKeys()
    ensures AllEncodable(HOST_BITS_PAIR)
    ensures KeyCount(HOST_BITS_PAIR, StringKeyMap) == 2 && KeyCount(HOST_BITS_PAIR, IntKeyMap) == 2
    ensures KeyCount(HOST_BITS_PAIR, ImmutableRadix) == 2
  {
    HostBitsDistinctKeysOf(StringKeyMap);
    HostBitsDistinctKeysOf(IntKeyMap);
    HostBitsDistinctKeysOf(ImmutableRadix);
  }

  lemma HostBitsDistinctKeysOf(b: Backend)
    requires b in {StringKeyMap, IntKeyMap, ImmutableRadix}
    ensures AllEncodable(HOST_BITS_PAIR) && KeyCount(HOST_BITS_PAIR, b) == 2
  {
    var ps := HOST_BITS_PAIR;
    var p, q := ps[0], ps[1];
    assert KeysDistinct(ps, b) by {
      match b
      case StringKeyMap =>
        assert StringKey(p)[3] == 1 && StringKey(q)[3] == 2;
        assert StringKeys(ps)[0] == StringKey(p) && StringKeys(ps)[1] == StringKey(q);
      case IntKeyMap =>
        assert BigEndian32(p.addr) % 0x100 == 1 && BigEndian32(q.addr) % 0x100 == 2;
        assert IntKeys(ps)[0] == IntKey(p) && IntKeys(ps)[1] == IntKey(q);
      case ImmutableRadix =>
        assert RadixKey(p)[3] == 1 && RadixKey(q)[3] == 2;
        assert RadixKeys(ps)[0] == RadixKey(p) && RadixKeys(ps)[1] == RadixKey(q);
    }
    FilledSize(ps, b);
  }

  lemma HostBitsSharedKey()
    ensures AllEncodable(HOST_BITS_PAIR) && KeyCount(HOST_BITS_PAIR, MutableRadix) == 1
  {
    var ps := HOST_BITS_PAIR;
    RadixStringKeyIgnoresHostBits();
    var bk := RadixStringKeys(ps);
    assert bk[0] == RadixStringKeyOf(ps[0]) && bk[1] == RadixStringKeyOf(ps[1]);
    assert bk == [bk[0], bk[0]];
    assert KeySet(bk) == {bk[0]};
  }

  /** 10.0.0.1/24 and 10.0.0.2/24 share a bit-string key: every check before the mutable radix tree's passes, that one fails with size 1 of 2. */
  lemma HostBitsFailMutableRadix(count: int)
    requires count >= 1
    ensures AllEncodable(HOST_BITS_PAIR)
    ensures BenchmarkOutcome(HOST_BITS_PAIR, count) == SizeMismatch(MutableRadix, 1, 2)
  {
    HostBitsDistinctKeys();
    HostBitsSharedKey();
    FilledSize(HOST_BITS_PAIR, StringKeyMap);
    FilledSize(HOST_BITS_PAIR, IntKeyMap);
    FilledSize(HOST_BITS_PAIR, ImmutableRadix);
    FilledSize(HOST_BITS_PAIR, MutableRadix);
    MutableRadixCheckFails(Filled(HOST_BITS_PAIR), 2, 1);
    OutcomeIsPostInsertChecks(HOST_BITS_PAIR, count);
  }

  /** The package globals of rib.go, with the decoded prefixes and the `-c` repetition count. */
  class Rib {
    const prefixes: seq<Prefix>
    const count: int
    var stringMap: map<seq<byte>, Prefix>
    var intMap: map<u64, Prefix>
    var ir: Option<ImmutableTree>
    var mr: RadixTree?
    var cri: CritbitTrie?

    ghost predicate Valid() {
      AllEncodable(prefixes)
    }

    ghost function State(): Snapshot
      reads this, mr, cri
    {
      Snapshot(stringMap, intMap,
               if ir.Some? then Some(ir.value.entries) else None,
               if mr != null then Some(mr.entries) else None,
               if cri != null then Some(cri.entries) else None)
    }

    constructor (prefixes: seq<Prefix>, count: int)
      requires AllEncodable(prefixes)
      ensures this.prefixes == prefixes && this.count == count
      ensures Valid() && State() == INITIAL
    {
      this.prefixes := prefixes;
      this.count := count;
      stringMap, intMap := map[], map[];
      ir, mr, cri := None, null, null;
    }

    /** The size argument `main` passes to `f`: None where the call would dereference a nil trie. */
    function Size(b: Backend): (n: Option<nat>)
      reads this, mr, cri
      ensures n == SnapshotSize(State(), b)
    {
      match b
      case StringKeyMap => Some(|stringMap|)
      case IntKeyMap => Some(|intMap|)
      case MutableRadix => if mr != null then Some(mr.Len()) else None
      case ImmutableRadix => if ir.Some? then Some(ir.value.Len()) else None
      case Critbit => if cri != null then Some(cri.Size()) else None
    }

    /** `insertStringKey`: a fresh map, then `m[stringKey(v)] = v` for every prefix in order. */
    method InsertStringKey()
      requires Valid()
      modifies this
      ensures State() == Step(Phase(Insert, StringKeyMap), prefixes, old(State()))
      ensures mr == old(mr) && cri == old(cri)
    {
      var m: map<seq<byte>, Prefix> := map[];
      ghost var ks := StringKeys(prefixes);
      for i := 0 to |prefixes|
        invariant m == Assign(ks[..i], prefixes[..i])
      {
        assert ks[..i + 1][..i] == ks[..i] && prefixes[..i + 1][..i] == prefixes[..i];
        m := m[StringKey(prefixes[i]) := prefixes[i]];
      }
      assert ks[..|prefixes|] == ks && prefixes[..|prefixes|] == prefixes;
      stringMap := m;
    }

    /** `insertIntKey`: a fresh map, then `m[intKey(v)] = v` for every prefix in order. */
    method InsertIntKey()
      requires Valid()
      modifies this
      ensures State() == Step(Phase(Insert, IntKeyMap), prefixes, old(State()))
      ensures mr == old(mr) && cri == old(cri)
    {
      var m: map<u64, Prefix> := map[];
      ghost var ks := IntKeys(prefixes);
      for i := 0 to |prefixes|
        invariant m == Assign(ks[..i], prefixes[..i])
      {
        assert ks[..i + 1][..i] == ks[..i] && prefixes[..i + 1][..i] == prefixes[..i];
        m := m[IntKey(prefixes[i]) := prefixes[i]];
      }
      assert ks[..|prefixes|] == ks && prefixes[..|prefixes|] == prefixes;
      intMap := m;
    }

    /** `insertMutableRadix`: a fresh go-radix tree becomes `mr`, then every prefix is inserted under its bit-string key. */
    method InsertMutableRadix()
      requires Valid()
      modifies this
      ensures State() == Step(Phase(Insert, MutableRadix), prefixes, old(State()))
      ensures fresh(mr) && cri == old(cri)
    {
      var r := new RadixTree();
      mr := r;
      ghost var ks := RadixStringKeys(prefixes);
      for i := 0 to |prefixes|
        invariant r.entries == Assign(ks[..i], prefixes[..i])
        modifies r
      {
        assert ks[..i + 1][..i] == ks[..i] && prefixes[..i + 1][..i] == prefixes[..i];
        var k := RadixStringKey(prefixes[i]);
        var _, _ := r.Insert(k, prefixes[i]);
      }
      assert ks[..|prefixes|] == ks && prefixes[..|prefixes|] == prefixes;
    }

    /** `insertRadix`: from `iradix.New()`, each insert returns the next tree; the last becomes `ir`. */
    method InsertRadix()
      requires Valid()
      modifies this
      ensures State() == Step(Phase(Insert, ImmutableRadix), prefixes, old(State()))
      ensures mr == old(mr) && cri == old(cri)
    {
      var r := EMPTY_TREE;
      ghost var ks := RadixKeys(prefixes);
      for i := 0 to |prefixes|
        invariant r.entries == Assign(ks[..i], prefixes[..i])
      {
        assert ks[..i + 1][..i] == ks[..i] && prefixes[..i + 1][..i] == prefixes[..i];
        r := r.Insert(RadixKey(prefixes[i]), prefixes[i]).0;
      }
      assert ks[..|prefixes|] == ks && prefixes[..|prefixes|] == prefixes;
      ir := Some(r);
    }

    /** `insertCritbit`: a fresh crit-bit trie becomes `cri`, then every prefix is inserted under its radix key. */
    method InsertCritbit()
      requires Valid()
      modifies this
      ensures State() == Step(Phase(Insert, Critbit), prefixes, old(State()))
      ensures mr == old(mr) && fresh(cri)
    {
      var t := new CritbitTrie();
      cri := t;
      ghost var ks := RadixKeys(prefixes);
      for i := 0 to |prefixes|
        invariant t.entries == AssignFirst(ks[..i], prefixes[..i])
        modifies t
      {
        assert ks[..i + 1][..i] == ks[..i] && prefixes[..i + 1][..i] == prefixes[..i];
        var _ := t.Insert(RadixKey(prefixes[i]), prefixes[i]);
      }
      assert ks[..|prefixes|] == ks && prefixes[..|prefixes|] == prefixes;
    }

    /** `lookupStringKey`: `m[stringKey(p)]` for every prefix; the results (discarded by the source) are returned. */
    method LookupStringKey() returns (found: seq<Option<Prefix>>)
      ensures |found| == |prefixes|
      ensures forall i :: 0 <= i < |prefixes| ==> found[i] == Get(stringMap, StringKey(prefixes[i]))
    {
      found := [];
      for i := 0 to |prefixes|
        invariant |found| == i
        invariant forall j :: 0 <= j < i ==> found[j] == Get(stringMap, StringKey(prefixes[j]))
      {
        found := found + [Get(stringMap, StringKey(prefixes[i]))];
      }
    }

    /** `lookupIntKey`: `m[intKey(p)]` for every prefix. */
    method LookupIntKey() returns (found: seq<Option<Prefix>>)
      requires Valid()
      ensures |found| == |prefixes|
      ensures forall i :: 0 <= i < |prefixes| ==> found[i] == Get(intMap, IntKey(prefixes[i]))
    {
      found := [];
      for i := 0 to |prefixes|
        invariant |found| == i
        invariant forall j :: 0 <= j < i ==> found[j] == Get(intMap, IntKey(prefixes[j]))
      {
        found := found + [Get(intMap, IntKey(prefixes[i]))];
      }
    }

    /** `lookupMutableRadix`: `mr.Get(radixStringkey(p))` for every prefix. */
    method LookupMutableRadix() returns (found: seq<Option<Prefix>>)
      requires Valid() && mr != null
      ensures |found| == |prefixes|
      ensures forall i :: 0 <= i < |prefixes| ==> found[i] == Get(mr.entries, RadixStringKeyOf(prefixes[i]))
    {
      found := [];
      for i := 0 to |prefixes|
        invariant |found| == i
        invariant forall j :: 0 <= j < i ==> found[j] == Get(mr.entries, RadixStringKeyOf(prefixes[j]))
      {
        var k := RadixStringKey(prefixes[i]);
        found := found + [mr.Get(k)];
      }
    }

    /** `lookupRadix`: `ir.Get(radixKey(p))` for every prefix. */
    method LookupRadix() returns (found: seq<Option<Prefix>>)
      requires ir.Some?
      ensures |found| == |prefixes|
      ensures forall i :: 0 <= i < |prefixes| ==> found[i] == Get(ir.value.entries, RadixKey(prefixes[i]))
    {
      var r := ir.value;
      found := [];
      for i := 0 to |prefixes|
        invariant |found| == i
        invariant forall j :: 0 <= j < i ==> found[j] == Get(r.entries, RadixKey(prefixes[j]))
      {
        found := found + [r.Get(RadixKey(prefixes[i]))];
      }
    }

    /** `lookupCritbit`: `cri.Get(radixKey(p))` for every prefix. */
    method LookupCritbit() returns (found: seq<Option<Prefix>>)
      requires cri != null
      ensures |found| == |prefixes|
      ensures forall i :: 0 <= i < |prefixes| ==> found[i] == Get(cri.entries, RadixKey(prefixes[i]))
    {
      found := [];
      for i := 0 to |prefixes|
        invariant |found| == i
        invariant forall j :: 0 <= j < i ==> found[j] == Get(cri.entries, RadixKey(prefixes[j]))
      {
        found := found + [cri.Get(RadixKey(prefixes[i]))];
      }
    }

    /** `walkStringKey`: a range over the map, visiting every key once. */
    method WalkStringKey() returns (visited: seq<seq<byte>>)
      ensures Distinct(visited) && KeySet(visited) == stringMap.Keys && |visited| == |stringMap|
    {
      visited := WalkEntries(stringMap);
    }

    /** `walkIntKey`: a range over the map, visiting every key once. */
    method WalkIntKey() returns (visited: seq<u64>)
      ensures Distinct(visited) && KeySet(visited) == intMap.Keys && |visited| == |intMap|
    {
      visited := WalkEntries(intMap);
    }

    /** `walkMutableRadix`: `mr.Walk` with a callback that never stops the walk. */
    method WalkMutableRadix() returns (visited: seq<string>)
      requires mr != null
      ensures Distinct(visited) && KeySet(visited) == mr.entries.Keys && |visited| == |mr.entries|
    {
      visited := WalkEntries(mr.entries);
    }

    /** `walkRadix`: `ir.Root().Walk` with a callback that never stops the walk. */
    method WalkRadix() returns (visited: seq<seq<byte>>)
      requires ir.Some?
      ensures Distinct(visited) && KeySet(visited) == ir.value.entries.Keys && |visited| == |ir.value.entries|
    {
      visited := WalkEntries(ir.value.entries);
    }

    /** `walkCritbit`: `cri.Walk(nil, …)` with a callback that never stops the walk. */
    method WalkCritbit() returns (visited: seq<seq<byte>>)
      requires cri != null
      ensures Distinct(visited) && KeySet(visited) == cri.entries.Keys && |visited| == |cri.entries|
    {
      visited := WalkEntries(cri.entries);
    }

    /** `deleteStringKey`: `delete(m, stringKey(p))` for every prefix; an absent key is a no-op. */
    method DeleteStringKey()
      requires Valid()
      modifies this
      ensures State() == Step(Phase(Delete, StringKeyMap), prefixes, old(State()))
      ensures mr == old(mr) && cri == old(cri)
    {
      var m := stringMap;
      ghost var ks := StringKeys(prefixes);
      for i := 0 to |prefixes|
        invariant m == old(stringMap) - KeySet(ks[..i])
        invariant unchanged(this)
      {
        KeySetExtend(ks, i);
        m := m - {StringKey(prefixes[i])};
      }
      assert ks[..|prefixes|] == ks;
      stringMap := m;
    }

    /** `deleteIntKey`: `delete(m, intKey(p))` for every prefix. */
    method DeleteIntKey()
      requires Valid()
      modifies this
      ensures State() == Step(Phase(Delete, IntKeyMap), prefixes, old(State()))
      ensures mr == old(mr) && cri == old(cri)
    {
      var m := intMap;
      ghost var ks := IntKeys(prefixes);
      for i := 0 to |prefixes|
        invariant m == old(intMap) - KeySet(ks[..i])
        invariant unchanged(this)
      {
        KeySetExtend(ks, i);
        m := m - {IntKey(prefixes[i])};
      }
      assert ks[..|prefixes|] == ks;
      intMap := m;
    }

    /** `deleteMutableRadix`: `mr.Delete(radixStringkey(p))` for every prefix. */
    method DeleteMutableRadix()
      requires Valid() && mr != null
      modifies mr
      ensures State() == Step(Phase(Delete, MutableRadix), prefixes, old(State()))
    {
      var r := mr;
      ghost var ks := RadixStringKeys(prefixes);
      for i := 0 to |prefixes|
        invariant r.entries == old(r.entries) - KeySet(ks[..i])
      {
        KeySetExtend(ks, i);
        var k := RadixStringKey(prefixes[i]);
        var _, _ := r.Delete(k);
      }
      assert ks[..|prefixes|] == ks;
    }

    /** `deleteRadix`: `ir = ir.Delete(radixKey(p))` for every prefix; each delete yields the next tree. */
    method DeleteRadix()
      requires Valid() && ir.Some?
      modifies this
      ensures State() == Step(Phase(Delete, ImmutableRadix), prefixes, old(State()))
      ensures mr == old(mr) && cri == old(cri)
    {
      var r := ir.value;
      ghost var ks := RadixKeys(prefixes);
      for i := 0 to |prefixes|
        invariant r.entries == old(ir).value.entries - KeySet(ks[..i])
        invariant unchanged(this)
      {
        KeySetExtend(ks, i);
        var k := RadixKey(prefixes[i]);
        assert k == ks[i];
        var next := r.Delete(k);
        assert next.0.entries == r.entries - {k};
        r := next.0;
      }
      assert ks[..|prefixes|] == ks;
      assert r.entries == old(ir).value.entries - KeySet(ks);
      ir := Some(r);
      assert State() == old(State()).(ir := Some(r.entries));
    }

    /** `deleteCritbit`: `cri.Delete(radixKey(p))` for every prefix. */
    method DeleteCritbit()
      requires Valid() && cri != null
      modifies cri
      ensures State() == Step(Phase(Delete, Critbit), prefixes, old(State()))
    {
      var t := cri;
      ghost var ks := RadixKeys(prefixes);
      for i := 0 to |prefixes|
        invariant t.entries == old(t.entries) - KeySet(ks[..i])
      {
        KeySetExtend(ks, i);
        var _, _ := t.Delete(RadixKey(prefixes[i]));
      }
      assert ks[..|prefixes|] == ks;
    }

    /** One call `f(b)` of a phase function (lookup and walk results are discarded, as in the source). */
    method RunPhase(phase: Phase)
      requires Valid() && PhaseEnabled(phase, State())
      modifies this, mr, cri
      ensures State() == Step(phase, prefixes, old(State()))
      ensures mr == old(mr) || fresh(mr)
      ensures cri == old(cri) || fresh(cri)
      ensures phase.op != Insert ==> mr == old(mr) && cri == old(cri)
    {
      match phase
      case Phase(Insert, StringKeyMap) => InsertStringKey();
      case Phase(Insert, IntKeyMap) => InsertIntKey();
      case Phase(Insert, MutableRadix) => InsertMutableRadix();
      case Phase(Insert, ImmutableRadix) => InsertRadix();
      case Phase(Insert, Critbit) => InsertCritbit();
      case Phase(Lookup, StringKeyMap) => var _ := LookupStringKey();
      case Phase(Lookup, IntKeyMap) => var _ := LookupIntKey();
      case Phase(Lookup, MutableRadix) => var _ := LookupMutableRadix();
      case Phase(Lookup, ImmutableRadix) => var _ := LookupRadix();
      case Phase(Lookup, Critbit) => var _ := LookupCritbit();
      case Phase(Walk, StringKeyMap) => var _ := WalkStringKey();
      case Phase(Walk, IntKeyMap) => var _ := WalkIntKey();
      case Phase(Walk, MutableRadix) => var _ := WalkMutableRadix();
      case Phase(Walk, ImmutableRadix) => var _ := WalkRadix();
      case Phase(Walk, Critbit) => var _ := WalkCritbit();
      case Phase(Delete, StringKeyMap) => DeleteStringKey();
      case Phase(Delete, IntKeyMap) => DeleteIntKey();
      case Phase(Delete, MutableRadix) => DeleteMutableRadix();
      case Phase(Delete, ImmutableRadix) => DeleteRadix();
      case Phase(Delete, Critbit) => DeleteCritbit();
    }

    /** `b.run(name, f)` without the timing: `f(b)` is called `count` times. */
    method Run(phase: Phase)
      requires Valid()
      requires count >= 1 ==> PhaseEnabled(phase, State())
      modifies this, mr, cri
      ensures State() == Repeat(count, phase, prefixes, old(State()))
      ensures mr == old(mr) || fresh(mr)
      ensures cri == old(cri) || fresh(cri)
      ensures phase.op != Insert ==> mr == old(mr) && cri == old(cri)
    {
      var i := 0;
      while i < count
        invariant i == 0 || 1 <= i <= count
        invariant i == 0 ==> State() == old(State())
        invariant i >= 1 ==> State() == Step(phase, prefixes, old(State()))
        invariant mr == old(mr) || fresh(mr)
        invariant cri == old(cri) || fresh(cri)
        invariant phase.op != Insert ==> mr == old(mr) && cri == old(cri)
      {
        StepIdempotent(phase, prefixes, old(State()));
        RunPhase(phase);
        i := i + 1;
      }
    }

    /** The INSERT block of `main`: every backend is built, in `main`'s order. */
    method RunInserts()
      requires Valid() && State() == INITIAL
      modifies this
      ensures State() == AfterInserts(count, prefixes)
      ensures mr == null || fresh(mr)
      ensures cri == null || fresh(cri)
    {
      Run(Phase(Insert, StringKeyMap));
      Run(Phase(Insert, IntKeyMap));
      Run(Phase(Insert, MutableRadix));
      Run(Phase(Insert, ImmutableRadix));
      Run(Phase(Insert, Critbit));
    }

    /** The LOOKUP block of `main`: it leaves the globals as they are. */
    method RunLookups()
      requires Valid()
      requires count >= 1 ==> mr != null && ir.Some? && cri != null
      modifies this, mr, cri
      ensures State() == old(State()) && mr == old(mr) && cri == old(cri)
      ensures ir.Some? == old(ir).Some?
    {
      Run(Phase(Lookup, StringKeyMap));
      Run(Phase(Lookup, IntKeyMap));
      Run(Phase(Lookup, MutableRadix));
      Run(Phase(Lookup, ImmutableRadix));
      Run(Phase(Lookup, Critbit));
    }

    /** The WALK block of `main`: it leaves the globals as they are. */
    method RunWalks()
      requires Valid()
      requires count >= 1 ==> mr != null && ir.Some? && cri != null
      modifies this, mr, cri
      ensures State() == old(State()) && mr == old(mr) && cri == old(cri)
      ensures ir.Some? == old(ir).Some?
    {
      Run(Phase(Walk, StringKeyMap));
      Run(Phase(Walk, IntKeyMap));
      Run(Phase(Walk, MutableRadix));
      Run(Phase(Walk, ImmutableRadix));
      Run(Phase(Walk, Critbit));
    }

    /** The DELETE block of `main`. */
    method RunDeletes()
      requires Valid()
      requires count >= 1 ==> mr != null && ir.Some? && cri != null
      modifies this, mr, cri
      ensures State() == AfterDeletes(count, prefixes, old(State()))
    {
      Run(Phase(Delete, StringKeyMap));
      Run(Phase(Delete, IntKeyMap));
      Run(Phase(Delete, MutableRadix));
      Run(Phase(Delete, ImmutableRadix));
      Run(Phase(Delete, Critbit));
    }

    /** The five size checks after the INSERT block, stopping at the first failure. */
    method CheckInserted() returns (outcome: Outcome)
      ensures outcome == PostInsertChecks(State(), |prefixes|)
    {
      var prefixLen := |prefixes|;
      outcome := Check(Size(StringKeyMap), StringKeyMap, prefixLen);
      if outcome != Pass { return; }
      outcome := Check(Size(IntKeyMap), IntKeyMap, prefixLen);
      if outcome != Pass { return; }
      outcome := Check(Size(ImmutableRadix), ImmutableRadix, prefixLen);
      if outcome != Pass { return; }
      outcome := Check(Size(MutableRadix), MutableRadix, prefixLen);
      if outcome != Pass { return; }
      outcome := Check(Size(Critbit), Critbit, prefixLen);
    }

    /** The five size checks after the DELETE block, stopping at the first failure. */
    method CheckDeleted() returns (outcome: Outcome)
      ensures outcome == PostDeleteChecks(State())
    {
      outcome := Check(Size(StringKeyMap), StringKeyMap, 0);
      if outcome != Pass { return; }
      outcome := Check(Size(IntKeyMap), IntKeyMap, 0);
      if outcome != Pass { return; }
      outcome := Check(Size(MutableRadix), MutableRadix, 0);
      if outcome != Pass { return; }
      outcome := Check(Size(ImmutableRadix), ImmutableRadix, 0);
      if outcome != Pass { return; }
      outcome := Check(Size(Critbit), Critbit, 0);
    }

    /** `main` from the end of decoding: the INSERT block, the size checks, LOOKUP, WALK, DELETE, and the final checks. */
    method Benchmark() returns (outcome: Outcome)
      requires Valid() && State() == INITIAL
      modifies this
      ensures outcome == BenchmarkOutcome(prefixes, count)
    {
      RunInserts();
      outcome := CheckInserted();
      if outcome != Pass { return; }
      RunLookups();
      RunWalks();
      RunDeletes();
      outcome := CheckDeleted();
    }
  }
}
