/**
 * Worked examples of the conversion on concrete records: a read with soft
 * clips of 3 and 2 around 10 aligned bases, with and without clipping and
 * with a minimum length, a record without a sequence, and reference
 * reconstruction over entries some of which carry no nucleotide.
 */
module Scenarios {
  import opened Records
  import opened Format
  import opened Extract
  import opened RecordLoop

  /** "AAABBBBBBBBBBCC": 15 bytes. */
  const Query: seq<byte> := [65, 65, 65, 66, 66, 66, 66, 66, 66, 66, 66, 66, 66, 67, 67]

  /** "BBBBBBBBBB": the 10 aligned bases. */
  const Aligned: seq<byte> := [66, 66, 66, 66, 66, 66, 66, 66, 66, 66]

  /** The record of CIGAR 3S10M2S over Query whose aligned bases match the reference. */
  const Clipped: Record := Record(
    Some(Query), false, 3, 2,
    Some([None, None, None,
          Some(66), Some(66), Some(66), Some(66), Some(66),
          Some(66), Some(66), Some(66), Some(66), Some(66),
          None, None]))

  /** n entries without a reference nucleotide (clipped or inserted bases). */
  function Gaps(n: nat): seq<Option<byte>>
  {
    seq(n, _ => None)
  }

  /** n entries that all carry the reference nucleotide x. */
  function Matches(n: nat, x: byte): seq<Option<byte>>
  {
    seq(n, _ => Some(x))
  }

  /** Entries without a reference nucleotide contribute nothing. */
  lemma {:induction false} GapsGiveNothing(n: nat)
    ensures References(Gaps(n)) == []
  {
    if n > 0 {
      GapsGiveNothing(n - 1);
      assert Gaps(n)[..n - 1] == Gaps(n - 1);
    }
  }

  /** Entries that all carry x contribute one x each. */
  lemma {:induction false} MatchesGiveBases(n: nat, x: byte)
    ensures References(Matches(n, x)) == seq(n, _ => x)
  {
    if n > 0 {
      MatchesGiveBases(n - 1, x);
      assert Matches(n, x)[..n - 1] == Matches(n - 1, x);
      assert seq(n, _ => x) == seq(n - 1, _ => x) + [x];
    }
  }

  /** With clipping, the emitted read is the 10 aligned bases, and its line is `>BBBBBBBBBB`. */
  lemma ClippedRead()
    ensures Decide(Clipped, true, None) == Take(SequencePair(Aligned, Aligned))
    ensures Entry(SequencePair(Aligned, Aligned))[..11] == [ReadMark] + Aligned
  {
    var gaps3, matches, gaps2 := Gaps(3), Matches(10, 66), Gaps(2);
    assert Clipped.entries.value == gaps3 + matches + gaps2;
    GapsGiveNothing(3);
    GapsGiveNothing(2);
    MatchesGiveBases(10, 66);
    assert seq(10, _ => 66 as byte) == Aligned;
    ReferencesAppend(gaps3, matches);
    ReferencesAppend(gaps3 + matches, gaps2);
  }

  /** Without clipping, the emitted read is the whole 15-byte query. */
  lemma UnclippedRead()
    ensures Decide(Clipped, false, None).Take?
    ensures Decide(Clipped, false, None).pair.read == Query
  {
  }

  /** With clipping and a minimum length of 12, the effective length 10 is too short. */
  lemma ClippedTooShort()
    ensures EffectiveLength(Clipped, true) == 10
    ensures Decide(Clipped, true, Some(12)) == Skip
  {
  }

  /** A record without a sequence is skipped: nothing is written, skipped becomes 1. */
  lemma UnavailableSequence(clip: bool, minLen: Option<nat>)
    ensures var r := Record(None, false, 0, 0, Some([]));
      NoPanic([Ok(r)], clip, minLen) && Convert([Ok(r)], clip, minLen) == Run([], 0, 1, 0)
  {
    var r := Record(None, false, 0, 0, Some([]));
    assert OkPrefix([Ok(r)]) == [r] by {
      assert [Ok(r)][1..] == [];
    }
    assert !Panics(r, clip, minLen) && Safe([r], clip, minLen);
    assert Step(Start, r, clip, minLen) == Run([], 0, 1, 0);
    assert [r][1..] == [];
    assert Fold(Start, [r], clip, minLen) == Fold(Run([], 0, 1, 0), [], clip, minLen);
  }

  /** Entries A, -, C, -, G reconstruct the reference "ACG". */
  lemma GappedReference()
    ensures References([Some(65), None, Some(67), None, Some(71)]) == [65, 67, 71]
  {
    var e: seq<Option<byte>> := [Some(65), None, Some(67), None, Some(71)];
    assert e == [Some(65)] + [None] + [Some(67)] + [None] + [Some(71)];
    assert References([Some(65)]) == [65] && References([None]) == [];
    assert References([Some(67)]) == [67] && References([Some(71)]) == [71];
    ReferencesAppend([Some(65)], [None]);
    ReferencesAppend([Some(65)] + [None], [Some(67)]);
    ReferencesAppend([Some(65)] + [None] + [Some(67)], [None]);
    ReferencesAppend([Some(65)] + [None] + [Some(67)] + [None], [Some(71)]);
  }
}
