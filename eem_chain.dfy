/** The network stack's buffer chain (lwIP `struct pbuf`) as the transmit path sees it: an ordered
    sequence of segments. Following `next` pointers becomes indexing; a segment's `len` is the
    number of its payload bytes. */
module EemChain {
  import opened UsbTypes

  /** One segment: its payload bytes and `tot_len`, the length the chain claims from this segment
      to its end. */
  datatype Segment = Segment(payload: seq<Byte>, totLen: nat) {
    /** The segment's `len`. */
    function Len(): nat
    {
      |payload|
    }

    /** The end-of-chain test of the transmit loop: `tot_len == len`. */
    predicate IsLast()
    {
      totLen == |payload|
    }
  }

  /** Sum of the segments' `len`. */
  function TotalLen(segs: seq<Segment>): nat
  {
    if segs == [] then 0 else TotalLen(segs[..|segs| - 1]) + segs[|segs| - 1].Len()
  }

  /** The segments' payloads laid end to end, in chain order. */
  function Flatten(segs: seq<Segment>): (bytes: seq<Byte>)
    ensures |bytes| == TotalLen(segs)
  {
    if segs == [] then [] else Flatten(segs[..|segs| - 1]) + segs[|segs| - 1].payload
  }

  /** The segments a traversal that stops after the first end-marked segment visits. */
  function Copied(chain: seq<Segment>): seq<Segment>
  {
    if chain == [] then []
    else if chain[0].IsLast() then [chain[0]]
    else [chain[0]] + Copied(chain[1..])
  }

  /** The visited segments are a prefix of the chain, none of them end-marked except possibly the
      last, and the traversal stops only at an end-marked segment or at the end of the chain. */
  lemma {:induction false} CopiedSpec(chain: seq<Segment>)
    ensures var visited := Copied(chain);
      && visited <= chain
      && (forall j :: 0 <= j < |visited| - 1 ==> !visited[j].IsLast())
      && (visited == chain || (visited != [] && visited[|visited| - 1].IsLast()))
  {
    if chain != [] && !chain[0].IsLast() {
      CopiedSpec(chain[1..]);
      assert chain == [chain[0]] + chain[1..];
    }
  }

  /** The bytes a traversal copies, gathered segment by segment from the front as the copy
      loop gathers them. */
  ghost function CopiedBytes(chain: seq<Segment>): seq<Byte>
  {
    if chain == [] then []
    else chain[0].payload + if chain[0].IsLast() then [] else CopiedBytes(chain[1..])
  }

  /** Gathering the bytes from the front gives the payload of the visited segments. */
  lemma {:induction false} CopiedBytesFlatten(chain: seq<Segment>)
    ensures CopiedBytes(chain) == Flatten(Copied(chain))
  {
    if chain != [] {
      if chain[0].IsLast() {
        FlattenCons(chain[0], []);
        assert [chain[0]] + [] == [chain[0]];
      } else {
        CopiedBytesFlatten(chain[1..]);
        FlattenCons(chain[0], Copied(chain[1..]));
      }
    }
  }

  /** Appending a segment appends its payload. */
  lemma {:induction false} FlattenSnoc(segs: seq<Segment>, s: Segment)
    ensures Flatten(segs + [s]) == Flatten(segs) + s.payload
    ensures TotalLen(segs + [s]) == TotalLen(segs) + s.Len()
  {
    assert (segs + [s])[..|segs|] == segs;
  }

  /** Flattening distributes over a chain whose first segment is split off. */
  lemma {:induction false} FlattenCons(s: Segment, rest: seq<Segment>)
    ensures Flatten([s] + rest) == s.payload + Flatten(rest)
    ensures TotalLen([s] + rest) == s.Len() + TotalLen(rest)
  {
    if rest != [] {
      var init := rest[..|rest| - 1];
      assert ([s] + rest)[..|rest|] == [s] + init;
      FlattenCons(s, init);
    }
  }

  /** The chain lwIP builds: every segment's `tot_len` is the sum of its own `len` and those of
      the segments after it. */
  ghost predicate WellFormed(chain: seq<Segment>)
  {
    forall i :: 0 <= i < |chain| ==> chain[i].totLen == TotalLen(chain[i..])
  }

  /** On a well-formed chain, stopping at the first end-marked segment loses no bytes: the
      flattened visited part is the whole chain's payload, and its length is the head's `tot_len`
      (segments after an early marker can only be empty). */
  lemma {:induction false} WellFormedCopiesAll(chain: seq<Segment>)
    requires WellFormed(chain)
    ensures Flatten(Copied(chain)) == Flatten(chain)
    ensures chain != [] ==> TotalLen(Copied(chain)) == chain[0].totLen
  {
    if chain != [] {
      var rest := chain[1..];
      assert chain == [chain[0]] + rest;
      assert chain[0..] == chain;
      FlattenCons(chain[0], rest);
      if chain[0].IsLast() {
        assert TotalLen(rest) == 0;
        EmptyFlatten(rest);
        assert Copied(chain) == [chain[0]] + [];
        FlattenCons(chain[0], []);
      } else {
        forall i | 0 <= i < |rest|
          ensures rest[i].totLen == TotalLen(rest[i..])
        {
          assert rest[i..] == chain[i + 1..];
        }
        WellFormedCopiesAll(rest);
        FlattenCons(chain[0], Copied(rest));
        if rest != [] {
          assert rest[0..] == rest;
        }
      }
    }
  }

  /** Segments whose lengths add up to zero carry no bytes. */
  lemma {:induction false} EmptyFlatten(segs: seq<Segment>)
    requires TotalLen(segs) == 0
    ensures Flatten(segs) == []
  {
    if segs != [] {
      EmptyFlatten(segs[..|segs| - 1]);
    }
  }
}
