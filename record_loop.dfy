/**
 * The record loop of bam2seq: it pulls items from the BAM reader until the first
 * decode error, decides each record, appends the accepted pairs to the output
 * and keeps the taken, skipped and total-length counters; at the end the
 * average length is the total divided by the number taken.
 */
module RecordLoop {
  import opened Records
  import opened Format
  import opened Extract

  /** The loop's state: the output written so far and the three counters. */
  datatype Run = Run(output: seq<byte>, taken: nat, skipped: nat, totalLen: nat)

  /** The state before the first record. */
  const Start: Run := Run([], 0, 0, 0)

  /** The records the loop consumes: those the reader yields before its first decode error. */
  function OkPrefix(source: seq<Item>): (rs: seq<Record>)
    ensures |rs| <= |source|
    ensures forall k :: 0 <= k < |rs| ==> source[k] == Ok(rs[k])
    ensures |rs| == |source| || source[|rs|].Err?
  {
    if source == [] then []
    else match source[0]
      case Err => []
      case Ok(r) => [r] + OkPrefix(source[1..])
  }

  /** A record the reader yields at a position the loop reaches is the next record it consumes. */
  lemma OkPrefixAt(source: seq<Item>, i: nat)
    requires i < |source| && i <= |OkPrefix(source)| && source[i].Ok?
    ensures i < |OkPrefix(source)| && OkPrefix(source)[i] == source[i].record
  {
  }

  /** A decode error at a position the loop reaches ends the records it consumes. */
  lemma OkPrefixEnd(source: seq<Item>, i: nat)
    requires i < |source| && i <= |OkPrefix(source)| && source[i].Err?
    ensures i == |OkPrefix(source)|
  {
  }

  /** No record among `rs` makes the loop panic. */
  predicate Safe(rs: seq<Record>, clip: bool, minLen: Option<nat>)
  {
    forall k :: 0 <= k < |rs| ==> !Panics(rs[k], clip, minLen)
  }

  /** No record the loop consumes from `source` makes it panic. */
  predicate NoPanic(source: seq<Item>, clip: bool, minLen: Option<nat>)
  {
    Safe(OkPrefix(source), clip, minLen)
  }

  /** One iteration of the loop on a record. */
  function Step(st: Run, r: Record, clip: bool, minLen: Option<nat>): Run
    requires !Panics(r, clip, minLen)
  {
    match Decide(r, clip, minLen)
    case Skip => st.(skipped := st.skipped + 1)
    case Take(p) => Run(st.output + Entry(p), st.taken + 1, st.skipped, st.totalLen + |p.read|)
  }

  /** The loop run from state `st` over the records `rs`, in order. */
  function Fold(st: Run, rs: seq<Record>, clip: bool, minLen: Option<nat>): Run
    requires Safe(rs, clip, minLen)
    decreases |rs|
  {
    if rs == [] then st else Fold(Step(st, rs[0], clip, minLen), rs[1..], clip, minLen)
  }

  /** The final state of the loop over everything the reader yields. */
  function Convert(source: seq<Item>, clip: bool, minLen: Option<nat>): Run
    requires NoPanic(source, clip, minLen)
  {
    Fold(Start, OkPrefix(source), clip, minLen)
  }

  /** The pairs of the accepted records, in input order. */
  function Pairs(rs: seq<Record>, clip: bool, minLen: Option<nat>): (ps: seq<SequencePair>)
    requires Safe(rs, clip, minLen)
    ensures |ps| <= |rs|
  {
    if rs == [] then []
    else
      var here := match Decide(rs[0], clip, minLen) case Skip => [] case Take(p) => [p];
      here + Pairs(rs[1..], clip, minLen)
  }

  /** The sum of the read lengths of `ps`. */
  function SumLengths(ps: seq<SequencePair>): nat
  {
    if ps == [] then 0 else |ps[0].read| + SumLengths(ps[1..])
  }

  /** The loop from the i-th record on is its i-th step followed by the loop from the next. */
  lemma FoldAt(st: Run, rs: seq<Record>, i: nat, clip: bool, minLen: Option<nat>)
    requires Safe(rs, clip, minLen) && i < |rs|
    ensures !Panics(rs[i], clip, minLen) && Safe(rs[i..], clip, minLen) && Safe(rs[i + 1..], clip, minLen)
    ensures Fold(st, rs[i..], clip, minLen) == Fold(Step(st, rs[i], clip, minLen), rs[i + 1..], clip, minLen)
  {
    assert rs[i..][0] == rs[i] && rs[i..][1..] == rs[i + 1..];
  }

  /** The records after the first are safe when all are. */
  lemma SafeTail(rs: seq<Record>, clip: bool, minLen: Option<nat>)
    requires rs != [] && Safe(rs, clip, minLen)
    ensures Safe(rs[1..], clip, minLen)
  {
    assert forall k :: 0 <= k < |rs[1..]| ==> rs[1..][k] == rs[k + 1];
  }

  /** Regrouping the output bytes; stated once so the fold proof does not search for it. */
  lemma AppendAssoc(a: seq<byte>, b: seq<byte>, c: seq<byte>)
    ensures (a + b) + c == a + (b + c)
  {
  }

  lemma SerializeCons(p: SequencePair, rest: seq<SequencePair>)
    ensures Serialize([p] + rest) == Entry(p) + Serialize(rest)
  {
    assert ([p] + rest)[0] == p && ([p] + rest)[1..] == rest;
  }

  lemma SumLengthsCons(p: SequencePair, rest: seq<SequencePair>)
    ensures SumLengths([p] + rest) == |p.read| + SumLengths(rest)
  {
    assert ([p] + rest)[0] == p && ([p] + rest)[1..] == rest;
  }

  /**
   * The loop is the serialization of the accepted pairs: from any state it appends
   * exactly the entries of the accepted records, in input order, after what was
   * already written; it counts every accepted record as taken, every other record
   * as skipped, and adds the accepted reads' lengths to the total.
   */
  lemma {:induction false} FoldIsSerializedPairs(st: Run, rs: seq<Record>, clip: bool, minLen: Option<nat>)
    requires Safe(rs, clip, minLen)
    ensures Fold(st, rs, clip, minLen).output == st.output + Serialize(Pairs(rs, clip, minLen))
    ensures Fold(st, rs, clip, minLen).taken == st.taken + |Pairs(rs, clip, minLen)|
    ensures Fold(st, rs, clip, minLen).skipped + |Pairs(rs, clip, minLen)| == st.skipped + |rs|
    ensures Fold(st, rs, clip, minLen).totalLen == st.totalLen + SumLengths(Pairs(rs, clip, minLen))
    decreases |rs|
  {
    if rs != [] {
      var tail := rs[1..];
      match Decide(rs[0], clip, minLen)
      case Skip =>
        SkippedRecordContinues(st, rs, clip, minLen);
        FoldIsSerializedPairs(Run(st.output, st.taken, st.skipped + 1, st.totalLen), tail, clip, minLen);
      case Take(p) =>
        var rest := Pairs(tail, clip, minLen);
        AcceptedRecordAppends(st, rs, clip, minLen);
        FoldIsSerializedPairs(Run(st.output + Entry(p), st.taken + 1, st.skipped, st.totalLen + |p.read|), tail, clip, minLen);
        SerializeCons(p, rest);
        SumLengthsCons(p, rest);
        AppendAssoc(st.output, Entry(p), Serialize(rest));
    } else {
      assert st.output + [] == st.output;
    }
  }

  /**
   * Every record before the first decode error is counted exactly once, as taken
   * or as skipped, and none after it; without a decode error, every record is.
   */
  lemma CountsRecordsBeforeError(source: seq<Item>, clip: bool, minLen: Option<nat>)
    requires NoPanic(source, clip, minLen)
    ensures var run := Convert(source, clip, minLen);
      run.taken + run.skipped == |OkPrefix(source)|
      && ((forall k :: 0 <= k < |source| ==> source[k].Ok?) ==> run.taken + run.skipped == |source|)
  {
    FoldIsSerializedPairs(Start, OkPrefix(source), clip, minLen);
  }

  /**
   * The loop stops at the first decode error: whatever follows it in the stream
   * has no effect on the output or the counters.
   */
  lemma StopsAtFirstError(pre: seq<Item>, post: seq<Item>, clip: bool, minLen: Option<nat>)
    requires forall k :: 0 <= k < |pre| ==> pre[k].Ok?
    ensures OkPrefix(pre + [Err] + post) == OkPrefix(pre)
    ensures |OkPrefix(pre)| == |pre|
    ensures NoPanic(pre + [Err] + post, clip, minLen) <==> NoPanic(pre, clip, minLen)
    ensures NoPanic(pre, clip, minLen) ==>
      Convert(pre + [Err] + post, clip, minLen) == Convert(pre, clip, minLen)
  {
    var s := pre + [Err] + post;
    var a, b := OkPrefix(s), OkPrefix(pre);
    assert s[|pre|] == Err;
    forall k | 0 <= k < |pre|
      ensures s[k] == pre[k]
    {
    }
    assert |b| == |pre|;
    assert |a| == |pre|;
    forall k | 0 <= k < |a|
      ensures a[k] == b[k]
    {
      assert s[k] == pre[k];
    }
  }

  /**
   * A skipped record (unusable, too short, or without alignment entries) only adds
   * one to the skipped counter and emits no pair, and the loop goes on with the
   * next record.
   */
  lemma SkippedRecordContinues(st: Run, rs: seq<Record>, clip: bool, minLen: Option<nat>)
    requires rs != [] && Safe(rs, clip, minLen)
    requires Decide(rs[0], clip, minLen) == Skip
    ensures Safe(rs[1..], clip, minLen)
    ensures Fold(st, rs, clip, minLen)
      == Fold(Run(st.output, st.taken, st.skipped + 1, st.totalLen), rs[1..], clip, minLen)
    ensures Pairs(rs, clip, minLen) == Pairs(rs[1..], clip, minLen)
  {
    SafeTail(rs, clip, minLen);
    assert [] + Pairs(rs[1..], clip, minLen) == Pairs(rs[1..], clip, minLen);
  }

  /**
   * An accepted record appends its entry `>read\n<reference\n` after the output so
   * far, adds one to taken and its read length to the total, contributes its pair
   * ahead of the later ones, and the loop goes on with the next record.
   */
  lemma AcceptedRecordAppends(st: Run, rs: seq<Record>, clip: bool, minLen: Option<nat>)
    requires rs != [] && Safe(rs, clip, minLen)
    requires Decide(rs[0], clip, minLen).Take?
    ensures Safe(rs[1..], clip, minLen)
    ensures var p := Decide(rs[0], clip, minLen).pair;
      Fold(st, rs, clip, minLen)
      == Fold(Run(st.output + Entry(p), st.taken + 1, st.skipped, st.totalLen + |p.read|), rs[1..], clip, minLen)
      && Pairs(rs, clip, minLen) == [p] + Pairs(rs[1..], clip, minLen)
  {
    SafeTail(rs, clip, minLen);
  }

  /** The reported average: the total length divided by the number taken (integer division). */
  function AverageLength(run: Run): (avg: nat)
    requires run.taken > 0
    ensures avg * run.taken <= run.totalLen < (avg + 1) * run.taken
  {
    run.totalLen / run.taken
  }

  /** The longest read among `ps` (0 for none). */
  function MaxReadLength(ps: seq<SequencePair>): (m: nat)
    ensures forall k :: 0 <= k < |ps| ==> |ps[k].read| <= m
    ensures ps != [] ==> exists k :: 0 <= k < |ps| && |ps[k].read| == m
  {
    if ps == [] then 0
    else
      var m := MaxReadLength(ps[1..]);
      assert forall k :: 1 <= k < |ps| ==> ps[k] == ps[1..][k - 1];
      if |ps[0].read| >= m then |ps[0].read| else m
  }

  lemma {:induction false} SumAtMostCountTimesBound(ps: seq<SequencePair>, m: nat)
    requires forall k :: 0 <= k < |ps| ==> |ps[k].read| <= m
    ensures SumLengths(ps) <= |ps| * m
  {
    if ps != [] {
      assert forall k :: 0 <= k < |ps[1..]| ==> ps[1..][k] == ps[k + 1];
      SumAtMostCountTimesBound(ps[1..], m);
      assert |ps| * m == m + |ps[1..]| * m;
    }
  }

  lemma DivAtMost(a: nat, b: nat, c: nat)
    requires b > 0 && a <= b * c
    ensures a / b <= c
  {
  }

  /** When some record is taken, the average length is at most the longest emitted read. */
  lemma AverageAtMostLongest(source: seq<Item>, clip: bool, minLen: Option<nat>)
    requires NoPanic(source, clip, minLen)
    requires Convert(source, clip, minLen).taken > 0
    ensures AverageLength(Convert(source, clip, minLen)) <= MaxReadLength(Pairs(OkPrefix(source), clip, minLen))
  {
    var rs := OkPrefix(source);
    var ps := Pairs(rs, clip, minLen);
    var run := Convert(source, clip, minLen);
    FoldIsSerializedPairs(Start, rs, clip, minLen);
    assert run.taken == |ps| && run.totalLen == SumLengths(ps);
    var m := MaxReadLength(ps);
    SumAtMostCountTimesBound(ps, m);
    DivAtMost(SumLengths(ps), |ps|, m);
  }

  /**
   * The record loop as the program runs it: items are pulled in order, the loop
   * breaks at the first decode error, and each record is skipped or appended.
   */
  method ConvertRecords(source: seq<Item>, clip: bool, minLen: Option<nat>)
      returns (output: seq<byte>, taken: nat, skipped: nat, totalLen: nat)
    requires NoPanic(source, clip, minLen)
    ensures Run(output, taken, skipped, totalLen) == Convert(source, clip, minLen)
    ensures taken + skipped == |OkPrefix(source)|
    ensures output == Serialize(Pairs(OkPrefix(source), clip, minLen))
  {
    ghost var records := OkPrefix(source);
    output, taken, skipped, totalLen := [], 0, 0, 0;
    var i := 0;
    while i < |source|
      invariant i <= |records|
      invariant Fold(Run(output, taken, skipped, totalLen), records[i..], clip, minLen)
             == Fold(Start, records, clip, minLen)
    {
      var record: Record;
      match source[i] {
        case Err =>
          OkPrefixEnd(source, i);
          break;
        case Ok(r) =>
          record := r;
      }
      OkPrefixAt(source, i);
      ghost var before := Run(output, taken, skipped, totalLen);
      FoldAt(before, records, i, clip, minLen);
      i := i + 1;

      var outcome := ExtractRecord(record, clip, minLen);
      match outcome {
        case Skip =>
          skipped := skipped + 1;
          assert Run(output, taken, skipped, totalLen) == Step(before, record, clip, minLen);
        case Take(p) =>
          taken := taken + 1;
          totalLen := totalLen + |p.read|;
          output := output + Entry(p);
          assert Run(output, taken, skipped, totalLen) == Step(before, record, clip, minLen);
      }
    }
    assert records[i..] == [];
    FoldIsSerializedPairs(Start, records, clip, minLen);
  }
}
