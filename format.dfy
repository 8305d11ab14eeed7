/**
 * The output file format: each pair is written as a line `>read` followed by a
 * line `<reference`, bytes verbatim, newline terminated. `Parse` reads such a
 * file back; the round-trip lemmas show the format loses nothing as long as no
 * read or reference contains a newline byte.
 */
module Format {
  import opened Records

  const Newline: byte := 10
  /** The byte '>' that opens a read line. */
  const ReadMark: byte := 62
  /** The byte '<' that opens a reference line. */
  const RefMark: byte := 60

  /** The bytes written for one accepted record. */
  function Entry(p: SequencePair): seq<byte>
  {
    [ReadMark] + p.read + [Newline] + [RefMark] + p.reference + [Newline]
  }

  /** The bytes written for a sequence of pairs, in order. */
  function Serialize(ps: seq<SequencePair>): seq<byte>
  {
    if ps == [] then [] else Entry(ps[0]) + Serialize(ps[1..])
  }

  lemma {:induction false} SerializeAppend(ps: seq<SequencePair>, qs: seq<SequencePair>)
    ensures Serialize(ps + qs) == Serialize(ps) + Serialize(qs)
  {
    if ps == [] {
      assert ps + qs == qs;
    } else {
      assert (ps + qs)[1..] == ps[1..] + qs;
      SerializeAppend(ps[1..], qs);
    }
  }

  /** The bytes contain no newline. */
  predicate NoNewline(s: seq<byte>)
  {
    s == [] || (s[0] != Newline && NoNewline(s[1..]))
  }

  lemma {:induction false} NoNewlineAt(s: seq<byte>, k: nat)
    requires NoNewline(s) && k < |s|
    ensures s[k] != Newline
  {
    if k > 0 {
      NoNewlineAt(s[1..], k - 1);
    }
  }

  /** The index of the first newline at or after `from`, or |out| when there is none. */
  function LineEnd(out: seq<byte>, from: nat): (k: nat)
    requires from <= |out|
    ensures from <= k <= |out|
    ensures k < |out| ==> out[k] == Newline
    decreases |out| - from
  {
    if from == |out| || out[from] == Newline then from else LineEnd(out, from + 1)
  }

  /** No newline lies between `from` and the line end: it is the first one. */
  lemma {:induction false} LineEndFirst(out: seq<byte>, from: nat, j: nat)
    requires from <= |out| && from <= j < LineEnd(out, from)
    ensures out[j] != Newline
    decreases j - from
  {
    if j > from {
      LineEndFirst(out, from + 1, j);
    }
  }

  /** Reads an output file back into its pairs; None when it is not in the format. */
  function Parse(out: seq<byte>): Option<seq<SequencePair>>
    decreases |out|
  {
    if out == [] then Some([])
    else if out[0] != ReadMark then None
    else
      var i := LineEnd(out, 1);
      if i + 1 >= |out| || out[i + 1] != RefMark then None
      else
        var j := LineEnd(out, i + 2);
        if j == |out| then None
        else match Parse(out[j + 1..])
          case None => None
          case Some(rest) => Some([SequencePair(out[1..i], out[i + 2..j])] + rest)
  }

  /** A line end found past a known newline-free stretch ending in a newline is that newline. */
  lemma {:induction false} LineEndAt(out: seq<byte>, from: nat, k: nat)
    requires from <= k < |out| && out[k] == Newline
    requires forall j :: from <= j < k ==> out[j] != Newline
    ensures LineEnd(out, from) == k
    decreases k - from
  {
    if from < k {
      LineEndAt(out, from + 1, k);
    }
  }

  lemma EntryParts(p: SequencePair, rest: seq<byte>)
    requires NoNewline(p.read) && NoNewline(p.reference)
    ensures var out := Entry(p) + rest;
      var i := 1 + |p.read|;
      var j := i + 2 + |p.reference|;
      out[0] == ReadMark && j < |out|
      && LineEnd(out, 1) == i && out[i + 1] == RefMark && LineEnd(out, i + 2) == j
      && out[1..i] == p.read && out[i + 2..j] == p.reference && out[j + 1..] == rest
  {
    var out := Entry(p) + rest;
    var i := 1 + |p.read|;
    var j := i + 2 + |p.reference|;
    forall k | 1 <= k < i
      ensures out[k] != Newline
    {
      assert out[k] == p.read[k - 1];
      NoNewlineAt(p.read, k - 1);
    }
    LineEndAt(out, 1, i);
    forall k | i + 2 <= k < j
      ensures out[k] != Newline
    {
      assert out[k] == p.reference[k - i - 2];
      NoNewlineAt(p.reference, k - i - 2);
    }
    LineEndAt(out, i + 2, j);
    assert out[1..i] == p.read;
    assert out[i + 2..j] == p.reference;
    assert out[j + 1..] == rest;
  }

  /** An entry followed by parsable bytes parses to its pair followed by theirs. */
  lemma ParseCons(p: SequencePair, rest: seq<byte>)
    requires NoNewline(p.read) && NoNewline(p.reference)
    ensures Parse(rest).None? ==> Parse(Entry(p) + rest).None?
    ensures Parse(rest).Some? ==> Parse(Entry(p) + rest) == Some([p] + Parse(rest).value)
  {
    EntryParts(p, rest);
    ParseStep(Entry(p) + rest, p, rest, 1 + |p.read|, 1 + |p.read| + 2 + |p.reference|);
  }

  /**
   * One step of Parse: bytes whose first two lines are `>` p.read and `<` p.reference,
   * followed by rest, parse to p followed by what rest parses to.
   */
  lemma ParseStep(out: seq<byte>, p: SequencePair, rest: seq<byte>, i: nat, j: nat)
    requires 0 < |out| && out[0] == ReadMark
    requires LineEnd(out, 1) == i && i + 1 < |out| && out[i + 1] == RefMark
    requires LineEnd(out, i + 2) == j && j < |out|
    requires out[1..i] == p.read && out[i + 2..j] == p.reference && out[j + 1..] == rest
    ensures Parse(rest).None? ==> Parse(out).None?
    ensures Parse(rest).Some? ==> Parse(out) == Some([p] + Parse(rest).value)
  {
    assert SequencePair(out[1..i], out[i + 2..j]) == p;
  }

  /** No read and no reference among `ps` contains a newline byte. */
  predicate Unbroken(ps: seq<SequencePair>)
  {
    ps == [] || (NoNewline(ps[0].read) && NoNewline(ps[0].reference) && Unbroken(ps[1..]))
  }

  /** Parsing what was serialized gives back the pairs. */
  lemma {:induction false} ParseSerialize(ps: seq<SequencePair>)
    requires Unbroken(ps)
    ensures Parse(Serialize(ps)) == Some(ps)
  {
    if ps != [] {
      var qs := ps[1..];
      var rest := Serialize(qs);
      assert Serialize(ps) == Entry(ps[0]) + rest;
      ParseSerialize(qs);
      ParseCons(ps[0], rest);
      assert [ps[0]] + qs == ps;
    }
  }

  /** A non-empty parsable output starts with the entry of its first pair. */
  lemma ParseHead(out: seq<byte>) returns (p: SequencePair, n: nat)
    requires out != [] && Parse(out).Some?
    ensures 0 < n <= |out| && out == Entry(p) + out[n..]
    ensures Parse(out[n..]).Some? && Parse(out).value == [p] + Parse(out[n..]).value
  {
    var i := LineEnd(out, 1);
    var j := LineEnd(out, i + 2);
    p := SequencePair(out[1..i], out[i + 2..j]);
    n := j + 1;
    PrefixSplit(out, 1, i);
    PrefixSplit(out, i, i + 1);
    PrefixSplit(out, i + 1, i + 2);
    PrefixSplit(out, i + 2, j);
    PrefixSplit(out, j, n);
    assert out[..1] == [ReadMark] && out[i..i + 1] == [Newline] && out[i + 1..i + 2] == [RefMark];
    assert out[j..n] == [Newline];
    assert out == out[..n] + out[n..];
  }

  lemma PrefixSplit(s: seq<byte>, a: nat, b: nat)
    requires a <= b <= |s|
    ensures s[..b] == s[..a] + s[a..b]
  {
  }

  /** Whatever parses was produced by serializing the parsed pairs. */
  lemma {:induction false} SerializeParse(out: seq<byte>)
    requires Parse(out).Some?
    ensures Serialize(Parse(out).value) == out
    decreases |out|
  {
    if out != [] {
      var p, n := ParseHead(out);
      SerializeParse(out[n..]);
      var ps := Parse(out).value;
      assert ps[0] == p && ps[1..] == Parse(out[n..]).value;
    }
  }
}
