/**
  The stored pieces of one packet: the source's `BTreeMap<usize, Vec<u8>>` as a sequence
  in ascending offset order, which is the order in which that map is iterated.
 */
module Pieces {
  import opened Wrappers
  import opened Bytes
  import opened IpPacket
  import opened FragmentCodec

  datatype Piece = Piece(offset: nat, payload: seq<byte>) {
    function End(): nat {
      offset + |payload|
    }
  }

  datatype Verdict = Fresh | Duplicate | Overlapping

  predicate Overlaps(f: Fragment, p: Piece) {
    f.offset < p.End() && p.offset < f.offset + |f.payload|
  }

  /** The scan over the stored pieces: the first exact repeat or overlap decides. */
  function Scan(pieces: seq<Piece>, f: Fragment): Verdict {
    if pieces == [] then Fresh
    else if pieces[0] == Piece(f.offset, f.payload) then Duplicate
    else if Overlaps(f, pieces[0]) then Overlapping
    else Scan(pieces[1..], f)
  }

  /** `BTreeMap::insert` of an offset that is not yet a key. */
  function Insert(pieces: seq<Piece>, p: Piece): (r: seq<Piece>)
    ensures |r| == |pieces| + 1
    ensures multiset(r) == multiset(pieces) + multiset{p}
  {
    if pieces == [] || p.offset < pieces[0].offset then [p] + pieces
    else
      assert pieces == [pieces[0]] + pieces[1..];
      [pieces[0]] + Insert(pieces[1..], p)
  }

  function SumLen(pieces: seq<Piece>): nat {
    if pieces == [] then 0 else |pieces[0].payload| + SumLen(pieces[1..])
  }

  /** Non-empty pieces inside `[from, to)`, each ending before the next begins. */
  predicate Disjoint(pieces: seq<Piece>, from: nat, to: nat) {
    if pieces == [] then from <= to
    else
      && from <= pieces[0].offset
      && pieces[0].payload != []
      && Disjoint(pieces[1..], pieces[0].End(), to)
  }

  /** The reassembly loop: appends payloads while each begins where the last one ended. */
  function Assemble(pieces: seq<Piece>, packet: seq<byte>): Result<seq<byte>, PacketError> {
    if pieces == [] then Ok(packet)
    else if pieces[0].offset != |packet| then Err(FragmentBounds)
    else Assemble(pieces[1..], packet + pieces[0].payload)
  }

  lemma {:induction false} DisjointAt(pieces: seq<Piece>, from: nat, to: nat, i: nat)
    requires Disjoint(pieces, from, to) && i < |pieces|
    ensures from <= pieces[i].offset < pieces[i].End() <= to
  {
    DisjointFits(pieces, from, to);
    DisjointFits(pieces[1..], pieces[0].End(), to);
    if i > 0 {
      DisjointAt(pieces[1..], pieces[0].End(), to, i - 1);
    }
  }

  /** Disjoint pieces cannot hold more bytes than the interval has. */
  lemma {:induction false} DisjointFits(pieces: seq<Piece>, from: nat, to: nat)
    requires Disjoint(pieces, from, to)
    ensures from + SumLen(pieces) <= to
    ensures |pieces| <= SumLen(pieces)
  {
    if pieces != [] {
      DisjointFits(pieces[1..], pieces[0].End(), to);
    }
  }

  /** Disjoint pieces holding as many bytes as the interval has leave no gap, so assembly succeeds. */
  lemma {:induction false} FullPiecesTile(pieces: seq<Piece>, packet: seq<byte>, to: nat)
    requires Disjoint(pieces, |packet|, to)
    requires |packet| + SumLen(pieces) == to
    ensures Assemble(pieces, packet).Ok?
    ensures |Assemble(pieces, packet).value| == to
    ensures packet <= Assemble(pieces, packet).value
    ensures forall i :: 0 <= i < |pieces| ==>
              && pieces[i].End() <= to
              && Assemble(pieces, packet).value[pieces[i].offset..pieces[i].End()] == pieces[i].payload
  {
    if pieces != [] {
      DisjointFits(pieces[1..], pieces[0].End(), to);
      var grown := packet + pieces[0].payload;
      FullPiecesTile(pieces[1..], grown, to);
      var whole := Assemble(pieces, packet).value;
      assert whole[..|grown|] == grown;
      assert whole[pieces[0].offset..pieces[0].End()] == grown[|packet|..];
      forall i | 0 <= i < |pieces|
        ensures pieces[i].End() <= to && whole[pieces[i].offset..pieces[i].End()] == pieces[i].payload
      {
        if i > 0 {
          assert pieces[i] == pieces[1..][i - 1];
        }
      }
    }
  }

  /** The scan answers by content, not by order, when the stored pieces are disjoint. */
  lemma {:induction false} ScanExact(pieces: seq<Piece>, f: Fragment, from: nat, to: nat)
    requires Disjoint(pieces, from, to)
    requires f.payload != []
    ensures Scan(pieces, f) == Duplicate <==> Piece(f.offset, f.payload) in pieces
    ensures Scan(pieces, f) == Overlapping <==>
              Piece(f.offset, f.payload) !in pieces && exists i :: 0 <= i < |pieces| && Overlaps(f, pieces[i])
  {
    if pieces != [] {
      var rest := pieces[1..];
      ScanExact(rest, f, pieces[0].End(), to);
      forall p | p in rest
        ensures pieces[0].End() <= p.offset
      {
        var i :| 0 <= i < |rest| && rest[i] == p;
        DisjointAt(rest, pieces[0].End(), to, i);
      }
      assert forall i :: 0 < i < |pieces| ==> pieces[i] == rest[i - 1];
      if i :| 0 <= i < |rest| && Overlaps(f, rest[i]) {
        assert Overlaps(f, pieces[i + 1]);
      }
      if i :| 0 <= i < |pieces| && Overlaps(f, pieces[i]) && i > 0 {
        assert Overlaps(f, rest[i - 1]);
      }
    }
  }

  /** Inserting a piece that overlaps nothing keeps the pieces disjoint. */
  lemma {:induction false} InsertKeepsDisjoint(pieces: seq<Piece>, f: Fragment, from: nat, to: nat)
    requires Disjoint(pieces, from, to)
    requires Scan(pieces, f) == Fresh
    requires f.payload != [] && from <= f.offset && f.offset + |f.payload| <= to
    ensures Disjoint(Insert(pieces, Piece(f.offset, f.payload)), from, to)
    ensures SumLen(Insert(pieces, Piece(f.offset, f.payload))) == SumLen(pieces) + |f.payload|
  {
    var p := Piece(f.offset, f.payload);
    var r := Insert(pieces, p);
    if pieces == [] || p.offset < pieces[0].offset {
      assert r[1..] == pieces;
    } else {
      InsertKeepsDisjoint(pieces[1..], f, pieces[0].End(), to);
      assert r[1..] == Insert(pieces[1..], p);
    }
  }
}
