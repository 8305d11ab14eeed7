/**
 * The per-record part of the conversion loop: the validity filter, the minimum
 * length filter, reconstruction of the reference bytes from the alignment
 * entries, soft-clip trimming of the read, and the resulting accept/skip
 * decision.
 */
module Extract {
  import opened Records

  /** The validity filter: the sequence is available and the CIGAR has operations. */
  predicate Usable(r: Record)
  {
    r.sequence.Some? && !r.cigarEmpty
  }

  /** Both soft clips together. */
  function ClipTotal(r: Record): nat
  {
    r.leftClip + r.rightClip
  }

  /**
   * The record makes the program panic: clipping is on, the clips together are
   * longer than the query, and the loop reaches either the `len -=` subtractions
   * (a minimum length is set) or the `split_at` calls (the alignment entries
   * were obtained). The subtractions are taken to panic on underflow.
   */
  predicate Panics(r: Record, clip: bool, minLen: Option<nat>)
  {
    Usable(r) && clip && ClipTotal(r) > |r.sequence.value|
    && (minLen.Some? || r.entries.Some?)
  }

  /** The length the minimum-length filter compares: query_len, less the clips when clipping. */
  function EffectiveLength(r: Record, clip: bool): (n: nat)
    requires Usable(r) && (clip ==> ClipTotal(r) <= |r.sequence.value|)
    ensures n <= |r.sequence.value|
  {
    if clip then |r.sequence.value| - r.leftClip - r.rightClip else |r.sequence.value|
  }

  /** The reference nucleotides of the entries that carry one, in entry order. */
  function References(entries: seq<Option<byte>>): (ref: seq<byte>)
    ensures |ref| <= |entries|
  {
    if entries == [] then []
    else
      var last := entries[|entries| - 1];
      References(entries[..|entries| - 1]) + (if last.Some? then [last.value] else [])
  }

  /**
   * The indices of the entries that carry a reference nucleotide, in increasing
   * order: every index listed carries one and every entry that carries one is listed.
   */
  function Positions(entries: seq<Option<byte>>): (p: seq<nat>)
    ensures |p| <= |entries|
    ensures forall k :: 0 <= k < |p| ==> p[k] < |entries| && entries[p[k]].Some?
    ensures forall k, l :: 0 <= k < l < |p| ==> p[k] < p[l]
    ensures forall i :: 0 <= i < |entries| && entries[i].Some? ==> i in p
  {
    if entries == [] then []
    else
      var n := |entries| - 1;
      var front := entries[..n];
      var p := Positions(front);
      assert forall k :: 0 <= k < |p| ==> entries[p[k]] == front[p[k]];
      p + (if entries[n].Some? then [n] else [])
  }

  /**
   * The reconstructed reference is exactly the ordered subsequence of the
   * entries' reference nucleotides: one byte per carrying entry, in entry order.
   */
  lemma {:induction false} ReferencesAreCarriedNucleotides(entries: seq<Option<byte>>)
    ensures |References(entries)| == |Positions(entries)| <= |entries|
    ensures forall k :: 0 <= k < |Positions(entries)| ==>
      References(entries)[k] == entries[Positions(entries)[k]].value
  {
    if entries != [] {
      var n := |entries| - 1;
      var front := entries[..n];
      ReferencesAreCarriedNucleotides(front);
      var p, r := Positions(front), References(front);
      var tail := if entries[n].Some? then [entries[n].value] else [];
      assert References(entries) == r + tail;
      assert Positions(entries) == p + (if entries[n].Some? then [n] else []);
      forall k | 0 <= k < |p|
        ensures References(entries)[k] == entries[Positions(entries)[k]].value
      {
        assert (r + tail)[k] == r[k];
        assert entries[p[k]] == front[p[k]];
      }
    }
  }

  /** Reconstruction is compositional: the entries of a + b give a's reference, then b's. */
  lemma {:induction false} ReferencesAppend(a: seq<Option<byte>>, b: seq<Option<byte>>)
    ensures References(a + b) == References(a) + References(b)
    decreases |b|
  {
    if b == [] {
      assert a + b == a;
    } else {
      var n := |b| - 1;
      assert (a + b)[..|a + b| - 1] == a + b[..n];
      assert (a + b)[|a + b| - 1] == b[n];
      ReferencesAppend(a, b[..n]);
    }
  }

  /** The loop over the alignment entries that pushes each reference nucleotide. */
  method BuildReference(entries: seq<Option<byte>>) returns (reference: seq<byte>)
    ensures reference == References(entries)
  {
    reference := [];
    var i := 0;
    while i < |entries|
      invariant i <= |entries|
      invariant reference == References(entries[..i])
    {
      assert entries[..i + 1][..i] == entries[..i];
      if entries[i].Some? {
        reference := reference + [entries[i].value];
      }
      i := i + 1;
    }
    assert entries[..i] == entries;
  }

  /**
   * The emitted read: with clipping, the read without its leading `left` and
   * trailing `right` bytes; without clipping, the whole read.
   */
  function Trim(read: seq<byte>, clip: bool, left: nat, right: nat): (t: seq<byte>)
    requires clip ==> left + right <= |read|
    ensures clip ==> |t| == |read| - left - right && read == read[..left] + t + read[|read| - right..]
    ensures clip ==> forall k :: 0 <= k < |t| ==> t[k] == read[left + k]
    ensures !clip ==> t == read
  {
    if clip then
      var afterLeft := read[left..];
      afterLeft[..|afterLeft| - right]
    else read
  }

  /** What the loop does with one record yielded by the reader. */
  datatype Outcome = Skip | Take(pair: SequencePair)

  /** The accept/skip decision for one record, and the pair emitted when it is accepted. */
  function Decide(r: Record, clip: bool, minLen: Option<nat>): (o: Outcome)
    requires !Panics(r, clip, minLen)
    ensures o.Take? ==> Usable(r) && r.entries.Some?
    ensures o.Take? ==> |o.pair.read| <= |r.sequence.value| && |o.pair.reference| <= |r.entries.value|
    ensures o.Take? && minLen.Some? ==> |o.pair.read| >= minLen.value
  {
    if !Usable(r) then Skip
    else if minLen.Some? && EffectiveLength(r, clip) < minLen.value then Skip
    else match r.entries
      case None => Skip
      case Some(es) =>
        ReferencesAreCarriedNucleotides(es);
        Take(SequencePair(Trim(r.sequence.value, clip, r.leftClip, r.rightClip), References(es)))
  }

  /**
   * The body of the record loop up to the writes: Skip where the loop counts the
   * record as skipped and continues, otherwise the read and reference it writes.
   * The subtractions on `len` and the two slicings are the places that would panic.
   */
  method ExtractRecord(r: Record, clip: bool, minLen: Option<nat>) returns (o: Outcome)
    requires !Panics(r, clip, minLen)
    ensures o == Decide(r, clip, minLen)
  {
    if r.sequence.None? || r.cigarEmpty {
      return Skip;
    }
    if minLen.Some? {
      var len: nat := |r.sequence.value|;
      if clip {
        len := len - r.leftClip;
        len := len - r.rightClip;
      }
      if len < minLen.value {
        return Skip;
      }
    }
    if r.entries.None? {
      return Skip;
    }
    var reference := BuildReference(r.entries.value);
    var read := r.sequence.value;
    if clip {
      read := read[r.leftClip..];
      read := read[..|read| - r.rightClip];
    }
    return Take(SequencePair(read, reference));
  }

  /** An unusable record, or one whose alignment entries cannot be obtained, is skipped. */
  lemma SkipsUnusableOrEntryless(r: Record, clip: bool, minLen: Option<nat>)
    requires !Panics(r, clip, minLen)
    ensures !Usable(r) ==> Decide(r, clip, minLen) == Skip
    ensures r.entries.None? ==> Decide(r, clip, minLen) == Skip
  {
  }

  /**
   * With a minimum length l, a record whose effective length is below l is skipped;
   * one whose effective length reaches l is decided as if no minimum were set.
   */
  lemma LengthFilter(r: Record, clip: bool, l: nat)
    requires Usable(r) && !Panics(r, clip, Some(l))
    ensures EffectiveLength(r, clip) < l ==> Decide(r, clip, Some(l)) == Skip
    ensures EffectiveLength(r, clip) >= l ==> Decide(r, clip, Some(l)) == Decide(r, clip, None)
  {
  }

  /**
   * An accepted record emits its read (trimmed exactly by its clips when clipping
   * is on, whole otherwise) and the reference of its entries; and every usable
   * record with entries is accepted when no minimum length is set.
   */
  lemma AcceptedPair(r: Record, clip: bool, minLen: Option<nat>)
    requires !Panics(r, clip, minLen)
    ensures Usable(r) && r.entries.Some? && minLen.None? ==> Decide(r, clip, minLen).Take?
    ensures Decide(r, clip, minLen).Take? ==>
      var s := r.sequence.value;
      var p := Decide(r, clip, minLen).pair;
      p.reference == References(r.entries.value)
      && (clip ==> r.leftClip + r.rightClip <= |s| && p.read == s[r.leftClip..|s| - r.rightClip])
      && (!clip ==> p.read == s)
  {
    if Decide(r, clip, minLen).Take? && clip {
      var s := r.sequence.value;
      var p := Decide(r, clip, minLen).pair;
      assert p.read == s[r.leftClip..][..|s| - r.leftClip - r.rightClip];
    }
  }
}
