/** The compressed loss list carried by a NAK packet (section 6.4 of draft-gg-udt-03): a run of one number is one
    32-bit word, a longer run two words, the first with its top bit set. */
module LossReport {
  import opened SeqNo
  import opened LossSlots

  const FLAG: int := 0x8000_0000

  /** One entry of a report as the sender reads it. */
  datatype Entry = Entry(first: Wire, last: Wire)

  function Words(run: Run): seq<int> {
    if run.lo < run.hi then [ToWire(run.lo) + FLAG, ToWire(run.hi)] else [ToWire(run.lo)]
  }

  function Encode(runs: seq<Run>): seq<int> {
    if runs == [] then [] else Encode(runs[..|runs| - 1]) + Words(runs[|runs| - 1])
  }

  /** What the sender reads out of the words from position i on; a flagged word at the very end, which would make
      it read outside the packet, is ignored here and never sent. */
  function Decode(words: seq<int>): seq<Entry> {
    if words == [] then []
    else if 0 <= words[0] < FLAG then [Entry(words[0], words[0])] + Decode(words[1..])
    else if FLAG <= words[0] <= FLAG + MAX && |words| > 1 && 0 <= words[1] <= MAX then
      [Entry(words[0] - FLAG, words[1])] + Decode(words[2..])
    else []
  }

  function EntryOf(run: Run): Entry {
    Entry(ToWire(run.lo), ToWire(run.hi))
  }

  function Entries(runs: seq<Run>): (r: seq<Entry>)
    ensures |r| == |runs| && forall i :: 0 <= i < |r| ==> r[i] == EntryOf(runs[i])
  {
    seq(|runs|, i requires 0 <= i < |runs| => EntryOf(runs[i]))
  }

  ghost predicate WellFormed(runs: seq<Run>) {
    forall i :: 0 <= i < |runs| ==> runs[i].lo <= runs[i].hi
  }

  lemma {:induction false} DecodeAppend(runs: seq<Run>, rest: seq<int>)
    requires WellFormed(runs)
    ensures Decode(Encode(runs) + rest) == Entries(runs) + Decode(rest)
  {
    hide ToWire;
    if runs == [] {
      assert Encode(runs) + rest == rest;
    } else {
      var n := |runs| - 1;
      var more := Words(runs[n]) + rest;
      assert Encode(runs) + rest == Encode(runs[..n]) + more;
      DecodeAppend(runs[..n], more);
      assert more[|Words(runs[n])|..] == rest;
      assert Decode(more) == [EntryOf(runs[n])] + Decode(rest);
      assert Entries(runs) == Entries(runs[..n]) + [EntryOf(runs[n])];
    }
  }

  /** The sender reads back exactly the runs that were written. */
  lemma RoundTrip(runs: seq<Run>)
    requires WellFormed(runs)
    ensures Decode(Encode(runs)) == Entries(runs)
  {
    assert Encode(runs) + [] == Encode(runs);
    DecodeAppend(runs, []);
  }

  /** The words are a report of these runs, in the form in which the sender reads it: a run of one number may be
      written either way, and a run may even have its ends the wrong way round. */
  ghost predicate Spells(words: seq<int>, runs: seq<Run>)
    decreases |runs|
  {
    if runs == [] then words == []
    else
      || (runs[0].lo == runs[0].hi && |words| > 0 && words[0] == ToWire(runs[0].lo) && Spells(words[1..], runs[1..]))
      || (|words| > 1 && words[0] == ToWire(runs[0].lo) + FLAG && words[1] == ToWire(runs[0].hi)
          && Spells(words[2..], runs[1..]))
  }

  lemma {:induction false} SpellsAppend(words: seq<int>, runs: seq<Run>, run: Run)
    requires Spells(words, runs) && run.lo <= run.hi
    ensures Spells(words + Words(run), runs + [run])
    decreases |runs|
  {
    hide ToWire;
    if runs == [] {
      assert words + Words(run) == Words(run) && runs + [run] == [run];
      assert [run][1..] == [];
      assert Words(run)[|Words(run)|..] == [];
    } else {
      var n := if runs[0].lo == runs[0].hi && words[0] == ToWire(runs[0].lo) && Spells(words[1..], runs[1..]) then 1 else 2;
      SpellsAppend(words[n..], runs[1..], run);
      assert (words + Words(run))[n..] == words[n..] + Words(run);
      assert (runs + [run])[1..] == runs[1..] + [run];
    }
  }

  lemma {:induction false} EncodeSpells(runs: seq<Run>)
    requires WellFormed(runs)
    ensures Spells(Encode(runs), runs)
  {
    if runs != [] {
      var n := |runs| - 1;
      EncodeSpells(runs[..n]);
      SpellsAppend(Encode(runs[..n]), runs[..n], runs[n]);
      assert runs[..n] + [runs[n]] == runs;
    }
  }
}
