# bam2seq record loop in Dafny

bam2seq reads a BAM alignment file and writes, for every usable alignment
record, two lines to a `.seq` file. The first is `>` followed by the read's
bases. When `--clip` is given, the soft-clipped ends are removed from the read.
The second is `<` followed by the reference nucleotides. These are rebuilt from
the record's alignment entries, skipping entries that have no reference
position, such as insertions and soft clips. Records are skipped when:
- the sequence is not available;
- the CIGAR is empty;
- `--min-len` is set and the effective length is shorter than it;
- the alignment entries cannot be obtained.

The loop stops at the first record the reader cannot decode. At the end the
program prints three things: how many records it took, how many it skipped, and
the average length of the emitted reads.

This project models that loop, `main` in `src/main.rs` from line 55 to line 115:

- `Records` holds the data. A record is reduced to the accessor results the
  loop reads:
  - the sequence, or none when it is unavailable;
  - whether the CIGAR is empty;
  - the two soft-clip lengths;
  - the alignment entries, or none when they cannot be obtained. Each entry is
    its reference nucleotide or none.

  The reader yields `Ok(record)` or `Err`.
- `Format` covers the output format. `Entry` gives the bytes written for one
  pair and `Serialize` those for a sequence of pairs. `Parse` is a reader for
  the format, written as the partner of the writer. Two round-trip lemmas show
  that the file records exactly the emitted pairs when no read or reference
  contains a newline byte.
- `Extract` covers the per-record decision:
  - the validity filter;
  - the minimum-length filter;
  - reference reconstruction, both as the loop `BuildReference` and as the
    function `References`, characterised through the carrying positions;
  - trimming;
  - `Decide`, and the method `ExtractRecord`, which follows the source's
    `continue` branches one by one.
- `RecordLoop` covers the loop itself. `ConvertRecords` is the `while` loop over
  the reader's items. It keeps the output and the three counters, and is proved
  against the fold `Convert`. Lemmas about the fold establish four things:
  - the output is the serialization of the accepted pairs, in input order;
  - every record before the first decode error is counted exactly once;
  - nothing after the first decode error matters;
  - each kind of record affects the state in its own way. A skipped record adds
    one to `skipped`. An accepted record appends its entry, adds one to `taken`
    and adds its read length to `total_len`.

  They also show that the printed average is at most the longest emitted read.
- `Scenarios` holds worked examples on concrete records. One is a 3S10M2S read
  with and without clipping, and with a minimum length. Others are a record
  without a sequence and a reference over entries with gaps.

Two places in the source are unguarded, and the model keeps them as
preconditions:
- The average is `total_len / taken` with no guard. The source faults when
  nothing is taken, so `AverageLength` is defined only for `taken > 0`.
- Clip lengths that exceed the query length are not guarded in the source. With
  clipping on, such a record panics when a minimum length is set (the `len -=`
  subtractions) or when its alignment entries are obtained (the `split_at`
  calls). Without clipping, or when the entries cannot be obtained and no
  minimum is set, it does not panic. `Extract.Panics` states exactly this, and
  the loop's precondition `NoPanic` excludes such records among those the loop
  reaches.

## Model

| member | source | states |
|---|---|---|
| RecordLoop.ConvertRecords | src/main.rs:55-112 | The loop over the reader's items ends with the output and counters of `Convert`. Taken plus skipped is the number of records before the first decode error. The output is exactly the serialization of the accepted pairs in input order. |
| RecordLoop.OkPrefix | src/main.rs:58-65 | The records the loop consumes are the items before the first `Err`, in order. The item after them, if there is one, is an `Err`. |
| RecordLoop.OkPrefixAt | src/main.rs:58-60 | An `Ok` item at a position the loop reaches is the next record it consumes. |
| RecordLoop.OkPrefixEnd | src/main.rs:61-64 | An `Err` item at a position the loop reaches ends the records it consumes. |
| RecordLoop.StopsAtFirstError | src/main.rs:58-65 | Items after the first decode error change neither the consumed records, nor whether the run panics, nor the final output and counters. |
| RecordLoop.CountsRecordsBeforeError | src/main.rs:55-88 | Every record before the first decode error is counted once, as taken or as skipped. With no decode error, every record is counted. |
| RecordLoop.FoldIsSerializedPairs | src/main.rs:58-111 | From any state, the loop appends the serialization of the accepted pairs to the output. `taken` grows by their number and `skipped` by the rest. `total_len` grows by the sum of their read lengths. |
| RecordLoop.SkippedRecordContinues | src/main.rs:67-88 | A skipped record only adds one to `skipped` and emits no pair. The loop then goes on with the next record. |
| RecordLoop.AcceptedRecordAppends | src/main.rs:104-111 | An accepted record appends its entry to the output, adds one to `taken` and its read length to `total_len`, and contributes its pair ahead of those of later records. |
| RecordLoop.MaxReadLength | src/main.rs:105 | The longest read among the emitted pairs bounds every one of them and is attained by one of them. |
| RecordLoop.AverageAtMostLongest | src/main.rs:113-115 | When some record is taken, the printed average `total_len / taken` is at most the longest emitted read. |
| Extract.Usable | src/main.rs:67 | The validity filter: the sequence is available and the CIGAR is not empty (a predicate, by definition). |
| Extract.Panics | src/main.rs:72-102 | By definition, a record panics exactly when it is usable, clipping is on, its clips together exceed its sequence, and either a minimum length is set (underflow of `len -=` at 75-76) or its entries are obtained (the `split_at` calls at 98-100). |
| Extract.References | src/main.rs:89-93 | The rebuilt reference: the entries' reference nucleotides in entry order, never longer than the entries. Characterised by `ReferencesAreCarriedNucleotides`. |
| Format.Entry | src/main.rs:106-111 | By definition, the bytes written for one pair: `>`, the read, newline, `<`, the reference, newline. |
| Format.Serialize | src/main.rs:106-111 | By definition, the entries of the pairs one after another, in order. `SerializeAppend` and the round-trip lemmas are about it. |
| RecordLoop.Step | src/main.rs:58-111 | By definition, one pass of the loop body on a record: a skipped record adds one to `skipped`; an accepted one appends its entry, adds one to `taken` and its read length to `total_len`. |
| RecordLoop.Fold | src/main.rs:58-112 | By definition, `Step` applied to the records in input order. `FoldIsSerializedPairs` states its result. |
| RecordLoop.Convert | src/main.rs:55-112 | By definition, `Fold` from zero counters and empty output over the records before the first decode error. |
| RecordLoop.Pairs | src/main.rs:67-111 | The pairs of the accepted records, in input order, at most one per record. |
| RecordLoop.AverageLength | src/main.rs:115 | The printed average `total_len / taken` as integer division: avg * taken <= total_len < (avg + 1) * taken. Defined only when `taken > 0`. |
| Extract.EffectiveLength | src/main.rs:73-77 | `query_len`, less both soft clips when clipping, never exceeds the read length. |
| Extract.LengthFilter | src/main.rs:72-82 | With a minimum length l, a record whose effective length is below l is skipped. Otherwise it is decided exactly as if no minimum were set. |
| Extract.SkipsUnusableOrEntryless | src/main.rs:67-88 | A record without an available sequence, with an empty CIGAR, or whose alignment entries cannot be obtained is skipped. |
| Extract.Positions | src/main.rs:89-93 | The positions of the entries that carry a reference nucleotide, strictly increasing. Every carrying entry is listed. |
| Extract.ReferencesAreCarriedNucleotides | src/main.rs:84-93 | The rebuilt reference has one byte per carrying entry. Its k-th byte is the nucleotide of the k-th carrying entry. |
| Extract.ReferencesAppend | src/main.rs:89-93 | Rebuilding is compositional: the entries a followed by b give a's reference followed by b's. |
| Extract.BuildReference | src/main.rs:84-93 | The push loop over the entries computes exactly `References` of them. |
| Extract.Trim | src/main.rs:95-102 | With clipping, the read is cut into left clip, kept part and right clip, and the kept part has length total minus both clips. Without clipping, the read is kept whole. |
| Extract.Decide | src/main.rs:67-102 | An accepted record is usable and has entries. Its pair is no longer than its sequence and its entries. It meets the minimum length when one is set. |
| Extract.ExtractRecord | src/main.rs:67-102 | The branches with `continue`, the subtractions and the two slicings compute exactly `Decide`. |
| Extract.AcceptedPair | src/main.rs:84-102 | An accepted record emits the reference of its entries. With clipping it emits `s[left..|s|-right]` and the clips fit. Without clipping it emits the whole sequence. Every usable record with entries is accepted when no minimum is set. |
| Format.SerializeAppend | src/main.rs:106-111 | Writing pairs one after another produces the concatenation of their entries, in order. |
| Format.ParseCons | src/main.rs:106-111 | About the reader the model adds for what these lines write; the program has no reader of its own. One entry followed by other output reads back as its pair followed by whatever that output reads back as. |
| Format.ParseSerialize | src/main.rs:106-111 | The reader the model adds, applied to what these lines write: when no read or reference holds a newline, reading the written file gives back exactly the emitted pairs. |
| Format.SerializeParse | src/main.rs:106-111 | Everything the model's reader accepts is exactly the file written for the pairs it reads; the program has no reader of its own. |
| Format.LineEnd | src/main.rs:108 | Helper of the reader for the lines written at 106-111; the program has no reader of its own. The index of the first newline at or after a position, or the end of the output. |
| Format.LineEndFirst | src/main.rs:108 | Helper of the reader for the lines written at 106-111. No newline lies strictly before the line end. |
| Scenarios.ClippedRead | src/main.rs:95-111 | For a 3S10M2S read with clipping, the pair is the 10 aligned bases and their reference, and the read line is `>` then those bases. |
| Scenarios.UnclippedRead | src/main.rs:95-97 | Without clipping the same record emits the whole 15-byte query. |
| Scenarios.ClippedTooShort | src/main.rs:72-82 | A minimum of 12 drops that read when clipping, since its effective length is 10. |
| Scenarios.UnavailableSequence | src/main.rs:67-70 | A record without a sequence writes nothing and counts one skipped. |
| Scenarios.GappedReference | src/main.rs:89-93 | Entries A, -, C, -, G give the reference ACG. |

## Left out

- Command-line parsing and the `.bam` / `.seq` extension assertions (src/main.rs:11-43). These are argument handling. `clip` and `min_len` are parameters of the model.
- Opening the output file and the `BufWriter` (src/main.rs:45-52). File I/O is not modelled, and the output is a byte sequence. A failed `write_all` unwrap is not modelled.
- The BAM reader and its decoding (src/main.rs:54). The reader is an external library. It becomes the input sequence of items, and records are reduced to their accessor results.
- The `println!` lines: the "Broken record" message and the three summary lines with their field widths. Console output is not modelled. Only the counters and the average they print are.
- Counter widths. The model's counters are unbounded. `skipped` is an `i32` and overflows after 2^31 - 1 skipped records. `taken` is a `usize` and overflows after 2^32 - 1 taken records on a 32-bit target, 2^64 - 1 on a 64-bit one. `total_len` is a `usize` too and overflows once the emitted reads together exceed 2^32 - 1 bases on a 32-bit target, which a few thousand long reads can reach; on a 64-bit target it needs 2^64 bases.
- `query_len()` is taken to be the length of the available sequence, as it is for BAM records that store their sequence.
- RecordLoop.AverageLength: defined only when `taken > 0`. The source divides by zero, and panics, when nothing is taken.
- Extract.Panics: the `len -=` subtractions are taken to panic on underflow, as in a debug build. In a release build they wrap, and a record without alignment entries is then skipped instead of panicking.
- RecordLoop.ConvertRecords: its precondition excludes runs in which a record before the first decode error would panic. The panic itself, which ends the program part-way through the output, is not modelled.
- Format.ParseSerialize: the round trip holds only when no read or reference contains a newline byte. The source writes the bytes verbatim and does not check this.
