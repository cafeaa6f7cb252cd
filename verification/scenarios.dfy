/** The scenarios the repository's unit tests exercise, stated as lemmas over
    the model: three empty in-memory buffers (sinks with no byte limit) and
    the payload `b"Hello, world!"`. */
module Scenarios {
  import opened Io
  import MultiWriters
  import RoundRobinCopiers

  /** `b"Hello, world!"` */
  const Hello: Chunk := [0x48, 0x65, 0x6c, 0x6c, 0x6f, 0x2c, 0x20, 0x77, 0x6f, 0x72, 0x6c, 0x64, 0x21]

  /** An empty `Vec<u8>`: it takes any number of bytes and flushes cleanly. */
  const Buffer: Sink := Sink([], Unlimited, false)

  /** A slice reader over `b"Hello, world!"`. */
  const HelloSource: Source := Source([Hello], Eof)

  lemma HelloContent()
    ensures Content(HelloSource) == Hello
  {
    assert HelloSource.chunks[1..] == [];
    assert Concat([]) == [];
    assert Hello + [] == Hello;
  }

  /** The `multi_writer` test: one write of the payload to three buffers
      leaves each holding exactly the payload. */
  lemma MultiWriterTest()
    ensures var r := MultiWriters.Write([Buffer, Buffer, Buffer], Hello);
      && r.result == Ok(13)
      && forall j | 0 <= j < 3 :: r.sinks[j].log == Hello
  {
  }

  /** The `copy_many_vec` test: copying the payload into three buffers
      succeeds. The test only unwraps the result; this lemma proves more,
      namely that 13 bytes are moved and each buffer then holds the
      payload. */
  lemma CopyManyTest()
    ensures var r := MultiWriters.CopyMany([Buffer, Buffer, Buffer], HelloSource);
      && r.result == Ok(13)
      && forall j | 0 <= j < 3 :: r.sinks[j].log == Hello
  {
    HelloContent();
  }

  const FourHellos: seq<Source> := [HelloSource, HelloSource, HelloSource, HelloSource]

  /** How four calls split over three sinks when the cursor starts at 0. */
  lemma FourHellosShares()
    ensures RoundRobinCopiers.Assigned(FourHellos, 0, 3, 0) == Hello + Hello
    ensures RoundRobinCopiers.Assigned(FourHellos, 0, 3, 1) == Hello
    ensures RoundRobinCopiers.Assigned(FourHellos, 0, 3, 2) == Hello
  {
    var a := RoundRobinCopiers.Assigned;
    var srcs := FourHellos;
    HelloContent();
    assert srcs[..3] == [HelloSource, HelloSource, HelloSource];
    assert srcs[..3][..2] == [HelloSource, HelloSource];
    assert srcs[..3][..2][..1] == [HelloSource];
    assert srcs[..3][..2][..1][..0] == [];
    forall j | 0 <= j < 3
      ensures a(srcs[..1], 0, 3, j) == if j == 0 then Hello else []
    {
      assert [] + Hello == Hello;
    }
    assert a(srcs[..2], 0, 3, 0) == Hello;
    assert a(srcs[..2], 0, 3, 1) == Hello;
    assert a(srcs[..2], 0, 3, 2) == [];
    assert a(srcs[..3], 0, 3, 0) == Hello;
    assert a(srcs[..3], 0, 3, 1) == Hello;
    assert a(srcs[..3], 0, 3, 2) == Hello;
  }

  /** The `round_robin_copier` test: four copies of the payload over three
      buffers leave the first holding it twice and the others once. */
  lemma RoundRobinCopierTest()
    ensures var s := RoundRobinCopiers.Run(RoundRobinCopiers.New([Buffer, Buffer, Buffer]), FourHellos);
      && s.results == [Ok(13), Ok(13), Ok(13), Ok(13)]
      && s.copier.sinks[0].log == Hello + Hello
      && s.copier.sinks[1].log == Hello
      && s.copier.sinks[2].log == Hello
  {
    var sinks := [Buffer, Buffer, Buffer];
    var s := RoundRobinCopiers.Run(RoundRobinCopiers.New(sinks), FourHellos);
    HelloContent();
    RoundRobinCopiers.RunSucceeds(RoundRobinCopiers.New(sinks), FourHellos);
    assert forall i | 0 <= i < 4 :: s.results[i] == Ok(13);
    RoundRobinCopiers.RunFromNewCycles(sinks, FourHellos, 0);
    RoundRobinCopiers.RunFromNewCycles(sinks, FourHellos, 1);
    RoundRobinCopiers.RunFromNewCycles(sinks, FourHellos, 2);
    FourHellosShares();
  }
}
