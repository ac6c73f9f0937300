// Whole runs of requests against the encrypting wrapper, wrapping ones included:
// they answer what a header and a plain array of blocks would answer.  On runs in
// which no write starts at the last block number the header is never written.
module DiskEncryptionRun {
  import opened Values
  import opened BlockDevice
  import opened EncryptedView
  import opened DiskEncryption

  datatype Request =
    | ReadOne(n: nat)
    | WriteOne(n: nat, b: seq<bv8>)
    | ReadMany(start: nat, count: nat)
    | WriteMany(start: nat, blocks: seq<seq<bv8>>)

  datatype Reply = Reply(err: Status, data: seq<bv8>)

  // The block that is the header, if the device has one, and the plain blocks.
  datatype Plain = Plain(header: seq<seq<bv8>>, shown: seq<seq<bv8>>)

  // A request a C caller can make.
  ghost predicate Possible(r: Request) {
    match r
    case ReadOne(n) => n < TWO64
    case WriteOne(n, b) => n < TWO64 && |b| == BLOCK_SIZE
    case ReadMany(start, count) => start < TWO64 && count < TWO64
    case WriteMany(start, blocks) => start < TWO64 && |blocks| * BLOCK_SIZE < TWO64 && AllBlocks(blocks)
  }

  // ------------------------------------------------------------------------
  // The header and the plain array
  // ------------------------------------------------------------------------

  ghost function Size(p: Plain): nat {
    |p.header| + |p.shown|
  }

  // A device has a header unless it is empty.
  ghost predicate Proper(p: Plain) {
    |p.header| <= 1 && (p.header == [] ==> p.shown == [])
  }

  ghost function ReadReply(config: Config, p: Plain, start: nat, count: nat): Reply
    requires Proper(p)
  {
    if Inside(start, count, Size(p)) then Reply(Ok, Flatten(p.shown[start..start + count]))
    else if ComesRound(start, count, Size(p)) then
      Reply(Ok, Flatten([config.Open(start, p.header[0])] + p.shown[..count - 1]))
    else Reply(InvalidArg, [])
  }

  ghost function Answer(config: Config, p: Plain, r: Request): Reply
    requires Proper(p)
  {
    match r
    case ReadOne(n) => if n < |p.shown| then Reply(Ok, p.shown[n]) else Reply(InvalidArg, [])
    case WriteOne(n, b) => Reply(if n < |p.shown| then Ok else InvalidArg, [])
    case ReadMany(start, count) => ReadReply(config, p, start, count)
    case WriteMany(start, blocks) =>
      Reply(if Inside(start, |blocks|, Size(p)) || ComesRound(start, |blocks|, Size(p)) then Ok else InvalidArg, [])
  }

  ghost function AfterMany(config: Config, p: Plain, start: nat, blocks: seq<seq<bv8>>): Plain
    requires Proper(p)
  {
    if Inside(start, |blocks|, Size(p)) then p.(shown := Replace(p.shown, start, blocks))
    else if ComesRound(start, |blocks|, Size(p)) then
      Plain([config.Seal(start, blocks[0])], Replace(p.shown, 0, blocks[1..]))
    else if Spills(start, |blocks|, |p.shown|) then
      p.(shown := Replace(p.shown, start, blocks[..|p.shown| - start]))
    else p
  }

  ghost function After(config: Config, p: Plain, r: Request): (q: Plain)
    requires Proper(p)
    ensures Proper(q)
  {
    match r
    case WriteOne(n, b) => if n < |p.shown| then p.(shown := p.shown[n := b]) else p
    case WriteMany(start, blocks) => AfterMany(config, p, start, blocks)
    case _ => p
  }

  ghost function AfterAll(config: Config, p: Plain, rs: seq<Request>): (q: Plain)
    requires Proper(p)
    ensures Proper(q)
  {
    if rs == [] then p else After(config, AfterAll(config, p, rs[..|rs| - 1]), rs[|rs| - 1])
  }

  ghost function Answers(config: Config, p: Plain, rs: seq<Request>): seq<Reply>
    requires Proper(p)
  {
    if rs == [] then []
    else Answers(config, p, rs[..|rs| - 1]) + [Answer(config, AfterAll(config, p, rs[..|rs| - 1]), rs[|rs| - 1])]
  }

  // ------------------------------------------------------------------------
  // The wrapper
  // ------------------------------------------------------------------------

  ghost function PlainOf(config: Config, blocks: seq<seq<bv8>>): (p: Plain)
    ensures Proper(p) && Size(p) == |blocks|
  {
    Plain(if blocks == [] then [] else [blocks[0]], View(config.Open, blocks))
  }

  lemma RoundIndex(i: nat)
    requires i < TWO64
    ensures Add64(TWO64 - 1, i) == if i == 0 then TWO64 - 1 else i - 1
  {}

  // What a reader finds from the last block number on.
  ghost function Round(open: (nat, seq<bv8>) -> seq<bv8>, blocks: seq<seq<bv8>>, count: nat): (r: seq<seq<bv8>>)
    requires 0 < count <= |blocks|
    ensures |r| == count
  {
    [open(TWO64 - 1, blocks[0])] + View(open, blocks)[..count - 1]
  }

  lemma RoundAt(open: (nat, seq<bv8>) -> seq<bv8>, blocks: seq<seq<bv8>>, count: nat, i: nat)
    requires i < count <= |blocks| < TWO64
    ensures Same(OpenAll(open, TWO64 - 1, blocks[..count])[i], Round(open, blocks, count)[i])
  {
    RoundIndex(i);
    if i > 0 {
      ViewIndex(open, blocks, i - 1);
    }
  }

  lemma RoundRead(open: (nat, seq<bv8>) -> seq<bv8>, blocks: seq<seq<bv8>>, count: nat)
    requires 0 < count <= |blocks| < TWO64
    ensures Same(OpenAll(open, TWO64 - 1, blocks[..count]), Round(open, blocks, count))
  {
    var seen, goal := OpenAll(open, TWO64 - 1, blocks[..count]), Round(open, blocks, count);
    forall i | 0 <= i < count
      ensures seen[i] == goal[i]
    {
      RoundAt(open, blocks, count, i);
    }
    assert seen == goal;
  }

  method ServeRead(dev: EncryptedDisk, start: nat, count: nat) returns (reply: Reply)
    requires dev.Valid() && start < TWO64 && count < TWO64
    ensures Same(reply, ReadReply(dev.config, PlainOf(dev.config, dev.disk.blocks), start, count))
  {
    var err, buf := dev.ReadBlocks(start, count);
    if ComesRound(start, count, |dev.disk.blocks|) {
      RoundRead(dev.config.Open, dev.disk.blocks, count);
    }
    reply := Reply(err, if err == Ok then buf else []);
  }

  lemma WroteInsideIs(config: Config, before: seq<seq<bv8>>, after: seq<seq<bv8>>, start: nat, new_: seq<seq<bv8>>)
    requires Wrote(config, before, after, start, new_) && Inside(start, |new_|, |before|)
    ensures var p := PlainOf(config, before);
            Same(PlainOf(config, after), p.(shown := Replace(p.shown, start, new_)))
  {
  }

  lemma WroteRoundIs(config: Config, before: seq<seq<bv8>>, after: seq<seq<bv8>>, new_: seq<seq<bv8>>)
    requires Wrote(config, before, after, TWO64 - 1, new_) && ComesRound(TWO64 - 1, |new_|, |before|)
    ensures var p := PlainOf(config, before);
            Same(PlainOf(config, after), Plain([config.Seal(TWO64 - 1, new_[0])], Replace(p.shown, 0, new_[1..])))
  {
  }

  lemma FirstOfFlat(blocks: seq<seq<bv8>>, m: nat)
    requires AllBlocks(blocks) && m <= |blocks|
    ensures m * BLOCK_SIZE <= |Flatten(blocks)| && Same(Cut(Flatten(blocks), m, BLOCK_SIZE), blocks[..m])
  {
    CutFlatten(blocks, BLOCK_SIZE);
    CutFirst(Flatten(blocks), |blocks|, m);
  }

  // A request to write acts on the header and the plain array.
  lemma WroteIsAfter(config: Config, before: seq<seq<bv8>>, after: seq<seq<bv8>>, start: nat, blocks: seq<seq<bv8>>)
    requires start < TWO64 && |blocks| < TWO64 && AllBlocks(blocks) && |before| < TWO64
    requires AfterRequest(config, before, after, start, |blocks|, Flatten(blocks))
    ensures Same(PlainOf(config, after), AfterMany(config, PlainOf(config, before), start, blocks))
  {
    var m := Landed(start, |blocks|, |before|);
    if m > 0 {
      LandedFits(start, |blocks|, |before|);
      FirstOfFlat(blocks, m);
      if m == |blocks| {
        assert blocks[..m] == blocks;
      }
      if Inside(start, m, |before|) {
        WroteInsideIs(config, before, after, start, blocks[..m]);
      } else {
        WroteRoundIs(config, before, after, blocks);
      }
    }
  }

  method ServeWrite(dev: EncryptedDisk, start: nat, blocks: seq<seq<bv8>>) returns (err: Status)
    requires dev.Valid() && Possible(WriteMany(start, blocks))
    modifies dev.disk
    ensures dev.Valid()
    ensures var n := old(|dev.disk.blocks|);
            err == Ok <==> Inside(start, |blocks|, n) || ComesRound(start, |blocks|, n)
    ensures Same(PlainOf(dev.config, dev.disk.blocks),
                 AfterMany(dev.config, PlainOf(dev.config, old(dev.disk.blocks)), start, blocks))
  {
    FlattenLength(blocks, BLOCK_SIZE);
    err := dev.WriteBlocks(start, |blocks|, Flatten(blocks));
    WroteIsAfter(dev.config, old(dev.disk.blocks), dev.disk.blocks, start, blocks);
  }

  method Serve(dev: EncryptedDisk, r: Request) returns (reply: Reply)
    requires dev.Valid() && Possible(r)
    modifies dev.disk
    ensures dev.Valid()
    ensures Same(reply, Answer(dev.config, PlainOf(dev.config, old(dev.disk.blocks)), r))
    ensures Same(PlainOf(dev.config, dev.disk.blocks), After(dev.config, PlainOf(dev.config, old(dev.disk.blocks)), r))
  {
    match r {
      case ReadOne(n) =>
        var err, buf := dev.Read(n);
        reply := Reply(err, if err == Ok then buf else []);
      case WriteOne(n, b) =>
        var err := dev.Write(n, b);
        reply := Reply(err, []);
      case ReadMany(start, count) =>
        reply := ServeRead(dev, start, count);
      case WriteMany(start, blocks) =>
        var err := ServeWrite(dev, start, blocks);
        reply := Reply(err, []);
    }
  }

  // The wrapper refines the header and the plain array over every run of requests.
  method ServeAll(dev: EncryptedDisk, rs: seq<Request>) returns (replies: seq<Reply>)
    requires dev.Valid() && forall i :: 0 <= i < |rs| ==> Possible(rs[i])
    modifies dev.disk
    ensures dev.Valid()
    ensures Same(replies, Answers(dev.config, PlainOf(dev.config, old(dev.disk.blocks)), rs))
    ensures Same(PlainOf(dev.config, dev.disk.blocks),
                 AfterAll(dev.config, PlainOf(dev.config, old(dev.disk.blocks)), rs))
  {
    ghost var p := PlainOf(dev.config, dev.disk.blocks);
    replies := [];
    for i := 0 to |rs|
      invariant dev.Valid()
      invariant Same(replies, Answers(dev.config, p, rs[..i]))
      invariant Same(PlainOf(dev.config, dev.disk.blocks), AfterAll(dev.config, p, rs[..i]))
    {
      assert rs[..i + 1][..i] == rs[..i];
      var reply := Serve(dev, rs[i]);
      replies := replies + [reply];
    }
    assert rs[..|rs|] == rs;
  }

  // ------------------------------------------------------------------------
  // Runs without a write from the last block number
  // ------------------------------------------------------------------------

  // Such a run never writes the header.
  lemma {:induction false} HeaderKept(config: Config, p: Plain, rs: seq<Request>)
    requires Proper(p)
    requires forall i :: 0 <= i < |rs| && rs[i].WriteMany? ==> rs[i].start < TWO64 - 1
    ensures AfterAll(config, p, rs).header == p.header
  {
    if rs != [] {
      HeaderKept(config, p, rs[..|rs| - 1]);
    }
  }

  // A request that does not wrap acts on the plain array alone.
  lemma UnwrappedIsArray(config: Config, p: Plain, start: nat, blocks: seq<seq<bv8>>)
    requires Proper(p) && start + |blocks| < TWO64
    ensures AfterMany(config, p, start, blocks).header == p.header
    ensures AfterMany(config, p, start, blocks).shown
         == if 0 < |blocks| && start + |blocks| <= |p.shown| then Replace(p.shown, start, blocks) else p.shown
    ensures ReadReply(config, p, start, |blocks|)
         == if 0 < |blocks| && start + |blocks| <= |p.shown| then Reply(Ok, Flatten(p.shown[start..start + |blocks|]))
            else Reply(InvalidArg, [])
  {
  }

  // ------------------------------------------------------------------------
  // A multi-block write is the single writes in turn
  // ------------------------------------------------------------------------

  ghost function OneByOne(start: nat, blocks: seq<seq<bv8>>): seq<Request> {
    if blocks == [] then []
    else OneByOne(start, blocks[..|blocks| - 1]) + [WriteOne(start + |blocks| - 1, blocks[|blocks| - 1])]
  }

  lemma {:induction false} OneByOneReplaces(config: Config, p: Plain, start: nat, blocks: seq<seq<bv8>>)
    requires Proper(p) && start + |blocks| <= |p.shown|
    ensures Same(AfterAll(config, p, OneByOne(start, blocks)), p.(shown := Replace(p.shown, start, blocks)))
  {
    if blocks == [] {
      ReplaceNone(p.shown, start);
    } else {
      var m := |blocks| - 1;
      OneByOneReplaces(config, p, start, blocks[..m]);
      var before := OneByOne(start, blocks[..m]);
      assert OneByOne(start, blocks)[..|before|] == before;
      ReplaceSnoc(p.shown, start, blocks[..m], blocks[m]);
      assert blocks[..m] + [blocks[m]] == blocks;
    }
  }

  lemma ManyIsOneByOne(config: Config, p: Plain, start: nat, blocks: seq<seq<bv8>>)
    requires Proper(p) && start + |blocks| <= |p.shown| < TWO64
    ensures AfterAll(config, p, OneByOne(start, blocks)) == After(config, p, WriteMany(start, blocks))
  {
    OneByOneReplaces(config, p, start, blocks);
    ReplaceNone(p.shown, start);
  }
}
