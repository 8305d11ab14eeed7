/**
 * Data model of bam2seq: the decoded BAM records the conversion loop consumes,
 * and the read/reference pair it emits for each accepted record.
 */
module Records {

  /** An accessor result that may be absent. */
  datatype Option<+T> = None | Some(value: T)

  /** A byte of a read, of a reference nucleotide, or of the output file. */
  newtype byte = x: int | 0 <= x < 256

  /**
   * One decoded alignment record, reduced to the accessor results the loop reads.
   * - `sequence`: None when `sequence().available()` is false; the length of an
   *   available sequence is the record's `query_len()`.
   * - `cigarEmpty`: `cigar().is_empty()`.
   * - `leftClip`, `rightClip`: `cigar().soft_clipping(true)` and `soft_clipping(false)`.
   * - `entries`: None when `alignment_entries()` fails; otherwise one element per
   *   entry, None for an entry without `ref_pos_nt()` and Some(nt) for one whose
   *   reference nucleotide is nt.
   */
  datatype Record = Record(
    sequence: Option<seq<byte>>,
    cigarEmpty: bool,
    leftClip: nat,
    rightClip: nat,
    entries: Option<seq<Option<byte>>>)

  /** What the BAM reader yields: a record, or a decode error. */
  datatype Item = Ok(record: Record) | Err

  /** The unit of output: the (possibly trimmed) read and its reconstructed reference. */
  datatype SequencePair = SequencePair(read: seq<byte>, reference: seq<byte>)
}
