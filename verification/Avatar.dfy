/**
 The bot's avatar: loaded from disk into one static buffer when a callback first needs it, and sent in the
 chunks the other side asks for. Positions and lengths are numbers of 64 bits, and so is their sum.
 */
module Avatar {
  import opened Wrappers

  const UINT32: nat := 0x1_0000_0000
  const UINT64: nat := 0x1_0000_0000_0000_0000

  type byte = bv8
  type uint64 = n: nat | n < 0x1_0000_0000_0000_0000

  /** The size of the buffer is a number of 32 bits. */
  type Image = s: seq<byte> | |s| < 0x1_0000_0000

  /** A chunk request, and what the image file holds at that moment (None, if it cannot be opened). */
  datatype Request = Request(position: uint64, length: uint64, file: Option<seq<byte>>)

  datatype Chunk = Chunk(position: nat, bytes: seq<byte>)

  datatype Outcome = Nothing | Answered(chunk: Chunk) | OutOfRange

  /** The static buffer after a callback: a null or empty one is loaded again, up to the file's size in 32 bits. */
  function Loaded(image: Image, file: Option<seq<byte>>): Image {
    if image != [] then image
    else match file
      case None => []
      case Some(f) => f[..|f| % UINT32]
  }

  function ImageAfter(image: Image, r: Request): Image {
    if r.length == 0 then image else Loaded(image, r.file)
  }

  /** The 64-bit sum is what is compared with the size, and the slice itself is what is copied. */
  function Answer(image: Image, r: Request): Outcome {
    var now := ImageAfter(image, r);
    if r.length == 0 || (r.position + r.length) % UINT64 > |now| then Nothing
    else if r.position + r.length > |now| then OutOfRange
    else Answered(Chunk(r.position, now[r.position..r.position + r.length]))
  }

  /** A request that ends past the largest number of 64 bits, by no more than `size`. */
  predicate Overruns(r: Request, size: nat) {
    r.position + r.length >= UINT64 && r.position + r.length - UINT64 <= size
  }

  /** Requests within a file have a sum of 64 bits. */
  predicate Sane(r: Request) {
    r.position + r.length < UINT64
  }

  /** The three outcomes, each told from the request and the size of the image. */
  lemma AnswerIff(image: Image, r: Request)
    ensures var (now, a) := (ImageAfter(image, r), Answer(image, r));
            && (a.OutOfRange? <==> UINT64 <= r.position + r.length <= UINT64 + |now|)
            && (a.Answered? <==> r.length > 0 && r.position + r.length <= |now|)
            && (a.Answered? ==> a.chunk == Chunk(r.position, now[r.position..r.position + r.length]))
  {
    if !Sane(r) {
      assert (r.position + r.length) % UINT64 == r.position + r.length - UINT64;
    }
  }

  /** One byte of image is enough: the 64-bit sum of this request is 1, and it starts at the very last position. */
  lemma AWrappedRequestLeavesTheImage(image: Image, file: Option<seq<byte>>)
    requires image != []
    ensures Answer(image, Request(UINT64 - 1, 2, file)) == OutOfRange
  {
    AnswerIff(image, Request(UINT64 - 1, 2, file));
  }

  /** A run of requests, followed up to the first one that reads outside the image. */
  datatype Session = Session(image: Image, sent: seq<Chunk>, broken: bool)

  function Next(s: Session, r: Request): Session {
    if s.broken then s
    else
      var image := ImageAfter(s.image, r);
      match Answer(s.image, r)
      case Nothing => Session(image, s.sent, false)
      case Answered(c) => Session(image, s.sent + [c], false)
      case OutOfRange => Session(image, s.sent, true)
  }

  function Run(image: Image, rs: seq<Request>): Session {
    if rs == [] then Session(image, [], false) else Next(Run(image, rs[..|rs| - 1]), rs[|rs| - 1])
  }

  ghost predicate SliceOf(c: Chunk, image: seq<byte>) {
    c.position + |c.bytes| <= |image| && c.bytes == image[c.position..c.position + |c.bytes|]
  }

  /** Once there is an image, the file on disk may change as it likes. */
  lemma {:induction false} ImageIsFixed(image: Image, rs: seq<Request>)
    requires image != []
    ensures Run(image, rs).image == image
  {
    if rs != [] { ImageIsFixed(image, rs[..|rs| - 1]); }
  }

  /** Request `i` overruns the image it is answered from. */
  ghost predicate OverrunsAt(image: Image, rs: seq<Request>, i: nat) {
    i < |rs| && Overruns(rs[i], |Run(image, rs[..i + 1]).image|)
  }

  lemma NextBreaks(s: Session, r: Request)
    ensures Next(s, r).broken <==> s.broken || Overruns(r, |Next(s, r).image|)
  {
    AnswerIff(s.image, r);
    hide Answer;
  }

  /** The one way a run goes wrong: some request overruns the image there is by then. */
  lemma {:induction false} BrokenIff(image: Image, rs: seq<Request>)
    ensures Run(image, rs).broken <==> exists i: nat :: OverrunsAt(image, rs, i)
  {
    if rs != [] {
      var n := |rs| - 1;
      var front := rs[..n];
      assert rs[..n + 1] == rs;
      assert Run(image, rs) == Next(Run(image, front), rs[n]);
      hide Run;
      hide Next;
      hide Overruns;
      BrokenIff(image, front);
      NextBreaks(Run(image, front), rs[n]);
      forall i: nat | i < n ensures OverrunsAt(image, front, i) <==> OverrunsAt(image, rs, i) {
        assert rs[..i + 1] == front[..i + 1];
      }
      assert OverrunsAt(image, rs, n) <==> Overruns(rs[n], |Run(image, rs).image|);
      if i: nat :| OverrunsAt(image, rs, i) {
        assert i < n || i == n;
      }
    }
  }

  /** Once there is an image, it is a matter of the requests and its size. */
  lemma BrokenOnceLoaded(image: Image, rs: seq<Request>)
    requires image != []
    ensures Run(image, rs).broken <==> exists i :: 0 <= i < |rs| && Overruns(rs[i], |image|)
  {
    BrokenIff(image, rs);
    forall i: nat | i < |rs| ensures OverrunsAt(image, rs, i) <==> Overruns(rs[i], |image|) {
      ImageIsFixed(image, rs[..i + 1]);
    }
  }

  /** No run of requests within files goes wrong. */
  lemma SaneIsNeverBroken(image: Image, rs: seq<Request>)
    requires forall i :: 0 <= i < |rs| ==> Sane(rs[i])
    ensures !Run(image, rs).broken
  {
    BrokenIff(image, rs);
    hide Run;
  }

  ghost predicate Sliced(s: Session) {
    && (forall i :: 0 <= i < |s.sent| ==> SliceOf(s.sent[i], s.image))
    && (s.image == [] ==> s.sent == [])
  }

  lemma NextIsSliced(s: Session, r: Request)
    requires Sliced(s)
    ensures Sliced(Next(s, r))
  {
    AnswerIff(s.image, r);
    hide Answer;
  }

  /** All chunks answered in a run are slices of one image, although the file may change between requests. */
  lemma {:induction false} ChunksOfOneImage(image: Image, rs: seq<Request>)
    ensures var s := Run(image, rs);
            && (forall i :: 0 <= i < |s.sent| ==> SliceOf(s.sent[i], s.image))
            && (s.image == [] ==> s.sent == [])
  {
    if rs != [] {
      hide Next;
      ChunksOfOneImage(image, rs[..|rs| - 1]);
      NextIsSliced(Run(image, rs[..|rs| - 1]), rs[|rs| - 1]);
    }
  }

  predicate Holds(c: Chunk, k: nat) {
    c.position <= k < c.position + |c.bytes|
  }

  /** Writing chunks at their positions, as the receiver does. */
  function Write(written: map<nat, byte>, c: Chunk): map<nat, byte> {
    written + map k: nat | k < c.position + |c.bytes| && Holds(c, k) :: c.bytes[k - c.position]
  }

  function WriteAll(cs: seq<Chunk>): map<nat, byte> {
    if cs == [] then map[] else Write(WriteAll(cs[..|cs| - 1]), cs[|cs| - 1])
  }

  function AsMap(image: seq<byte>): map<nat, byte> {
    map k: nat | k < |image| :: image[k]
  }

  ghost predicate Covered(cs: seq<Chunk>, k: nat) {
    exists i :: 0 <= i < |cs| && Holds(cs[i], k)
  }

  lemma {:induction false} WrittenIsCovered(cs: seq<Chunk>, image: seq<byte>, k: nat)
    requires forall i :: 0 <= i < |cs| ==> SliceOf(cs[i], image)
    ensures k in WriteAll(cs) <==> Covered(cs, k)
    ensures k in WriteAll(cs) ==> k < |image| && WriteAll(cs)[k] == image[k]
  {
    if cs != [] {
      var front, last := cs[..|cs| - 1], cs[|cs| - 1];
      WrittenIsCovered(front, image, k);
      assert SliceOf(last, image);
      if Covered(front, k) {
        var i :| 0 <= i < |front| && Holds(front[i], k);
        assert cs[i] == front[i];
      }
      if Covered(cs, k) {
        var i :| 0 <= i < |cs| && Holds(cs[i], k);
        if i < |front| { assert front[i] == cs[i]; }
      }
    }
  }

  /**
   Reassembly: whatever chunks are asked for, in any order and with repeats, the receiver ends up with the
   image exactly when the answered chunks cover it, and with nothing that is not in the image before that.
   */
  lemma Reassembly(image: Image, rs: seq<Request>)
    ensures var s := Run(image, rs);
            && WriteAll(s.sent).Items <= AsMap(s.image).Items
            && (WriteAll(s.sent) == AsMap(s.image) <==> forall k: nat :: k < |s.image| ==> Covered(s.sent, k))
  {
    var s := Run(image, rs);
    ChunksOfOneImage(image, rs);
    hide Run;
    forall k: nat
      ensures k in WriteAll(s.sent) <==> Covered(s.sent, k)
      ensures k in WriteAll(s.sent) ==> k < |s.image| && WriteAll(s.sent)[k] == s.image[k]
    {
      WrittenIsCovered(s.sent, s.image, k);
    }
  }

  /** After the first request that finds the file readable and not empty, the image is that file. */
  ghost predicate LoadedAt(rs: seq<Request>, i: nat, f: seq<byte>) {
    && i < |rs| && rs[i].length > 0 && rs[i].file == Some(f) && 0 < |f| < UINT32
    && forall j :: 0 <= j < i ==>
         rs[j].length == 0 || (rs[j].file in {None, Some([])} && rs[j].position + rs[j].length != UINT64)
  }

  lemma {:induction false} NothingBeforeTheFile(rs: seq<Request>)
    requires forall j :: 0 <= j < |rs| ==>
               rs[j].length == 0 || (rs[j].file in {None, Some([])} && rs[j].position + rs[j].length != UINT64)
    ensures Run([], rs) == Session([], [], false)
  {
    if rs != [] {
      NothingBeforeTheFile(rs[..|rs| - 1]);
      AnswerIff([], rs[|rs| - 1]);
    }
  }

  /** What is served is the file: the whole of it, from the first time it could be read. */
  lemma {:induction false} ImageIsTheFile(rs: seq<Request>, i: nat, f: seq<byte>)
    requires LoadedAt(rs, i, f)
    ensures Run([], rs).image == f
  {
    var n := |rs| - 1;
    if i < n {
      ImageIsTheFile(rs[..n], i, f);
    } else {
      NothingBeforeTheFile(rs[..n]);
      assert f[..|f|] == f;
    }
  }

  /** What each request adds to what is sent, in any run: its slice of the image if it lies within, else nothing. */
  lemma RequestSends(image: Image, rs: seq<Request>, i: nat)
    requires i < |rs| && !Run(image, rs[..i]).broken
    ensures var (r, now) := (rs[i], Run(image, rs[..i + 1]).image);
            Run(image, rs[..i + 1]).sent == Run(image, rs[..i]).sent
              + (if 0 < r.length && r.position + r.length <= |now|
                 then [Chunk(r.position, now[r.position..r.position + r.length])] else [])
  {
    assert rs[..i + 1][..i] == rs[..i];
    AnswerIff(Run(image, rs[..i]).image, rs[i]);
  }

  /** Some request from `i` on, within `size` bytes, asks for byte `k`. */
  ghost predicate AskedFor(rs: seq<Request>, i: nat, size: nat, k: nat) {
    exists j :: i <= j < |rs| && rs[j].position <= k < rs[j].position + rs[j].length <= size
  }

  lemma CoveredByOneMore(cs: seq<Chunk>, c: Chunk, k: nat)
    ensures Covered(cs + [c], k) <==> Covered(cs, k) || c.position <= k < c.position + |c.bytes|
  {
    if Covered(cs, k) {
      var i :| 0 <= i < |cs| && Holds(cs[i], k);
      assert Holds((cs + [c])[i], k);
    }
    if Holds(c, k) {
      assert Holds((cs + [c])[|cs|], k);
    }
  }

  lemma AskedForByOneMore(rs: seq<Request>, i: nat, size: nat, k: nat)
    requires i < |rs|
    ensures var r := rs[|rs| - 1];
            AskedFor(rs, i, size, k) <==> AskedFor(rs[..|rs| - 1], i, size, k) || r.position <= k < r.position + r.length <= size
  {
    var front := rs[..|rs| - 1];
    if AskedFor(front, i, size, k) {
      var j :| i <= j < |front| && front[j].position <= k < front[j].position + front[j].length <= size;
      assert rs[j] == front[j];
    }
    if j :| i <= j < |rs| && rs[j].position <= k < rs[j].position + rs[j].length <= size {
      assert j < |front| ==> front[j] == rs[j];
    }
  }

  /** The bytes sent are the bytes asked for. */
  lemma {:induction false} CoveredIsAskedFor(rs: seq<Request>, i: nat, f: seq<byte>, k: nat)
    requires LoadedAt(rs, i, f) && !Run([], rs).broken
    ensures Covered(Run([], rs).sent, k) <==> AskedFor(rs, i, |f|, k)
  {
    var n := |rs| - 1;
    var front, r := rs[..n], rs[n];
    assert rs[..n + 1] == rs;
    ImageIsTheFile(rs, i, f);
    RequestSends([], rs, n);
    AskedForByOneMore(rs, i, |f|, k);
    if i < n {
      CoveredIsAskedFor(front, i, f, k);
    } else {
      NothingBeforeTheFile(front);
    }
    if 0 < r.length && r.position + r.length <= |f| {
      CoveredByOneMore(Run([], front).sent, Chunk(r.position, f[r.position..r.position + r.length]), k);
    }
  }

  /**
   From the file to the receiver: whoever asks, in any order and with repeats, for ranges that 64 bits can end, gets the
   whole file exactly when those of them that lie within it cover it, and never a byte that is not the file's.
   */
  lemma FileReachesTheReceiver(rs: seq<Request>, i: nat, f: seq<byte>)
    requires LoadedAt(rs, i, f) && forall j :: 0 <= j < |rs| ==> rs[j].position + rs[j].length < UINT64
    ensures var got := WriteAll(Run([], rs).sent);
            && (forall k :: k in got ==> k < |f| && got[k] == f[k])
            && ((forall k: nat :: k < |f| ==> k in got) <==> forall k: nat :: k < |f| ==> AskedFor(rs, i, |f|, k))
  {
    SaneIsNeverBroken([], rs);
    ImageIsTheFile(rs, i, f);
    ChunksOfOneImage([], rs);
    hide Run;
    forall k: nat
      ensures k in WriteAll(Run([], rs).sent) <==> AskedFor(rs, i, |f|, k)
      ensures k in WriteAll(Run([], rs).sent) ==> k < |f| && WriteAll(Run([], rs).sent)[k] == f[k]
    {
      CoveredIsAskedFor(rs, i, f, k);
      WrittenIsCovered(Run([], rs).sent, f, k);
    }
  }

  /** The static `avatar_data` and the callbacks that use it. */
  class Sender {
    var image: Image

    constructor ()
      ensures image == []
    {
      image := [];
    }

    /** The loading part of the connection callback. */
    method FriendConnected(file: Option<seq<byte>>) returns (offered: bool)
      modifies this
      ensures old(image) != [] ==> image == old(image)
      ensures old(image) == [] ==> image == match file case None => [] case Some(f) => f[..|f| % UINT32]
      ensures old(image) == [] && file.Some? && |file.value| < UINT32 ==> image == file.value
      ensures offered <==> old(image) != [] || file.Some?
    {
      offered := true;
      if image == [] {
        offered := GetData(file);
      }
    }

    /** `get_data`: the file is read into a new buffer, if it can be opened. */
    method GetData(file: Option<seq<byte>>) returns (found: bool)
      requires image == []
      modifies this
      ensures image == match file case None => [] case Some(f) => f[..|f| % UINT32]
      ensures found <==> file.Some?
    {
      found := file.Some?;
      if file.Some? {
        image := file.value[..|file.value| % UINT32];
      }
    }

    /** `OutOfRange` stands for a copy that leaves the buffer. */
    method FileChunkRequest(r: Request) returns (o: Outcome)
      modifies this
      ensures image == ImageAfter(old(image), r) && o == Answer(old(image), r)
      ensures old(image) != [] || r.length == 0 ==> image == old(image)
      ensures old(image) == [] && r.length > 0 && r.file.Some? && |r.file.value| < UINT32 ==> image == r.file.value
      ensures o.OutOfRange? <==> UINT64 <= r.position + r.length <= UINT64 + |image|
      ensures o.Answered? <==> r.length > 0 && r.position + r.length <= |image|
      ensures o.Answered? ==> o.chunk == Chunk(r.position, image[r.position..r.position + r.length])
    {
      AnswerIff(image, r);
      if r.length == 0 {
        return Nothing;
      }
      if image == [] {
        var _ := GetData(r.file);
      }
      if (r.position + r.length) % UINT64 > |image| {
        return Nothing;
      }
      if r.position + r.length > |image| {
        return OutOfRange;
      }
      return Answered(Chunk(r.position, image[r.position..r.position + r.length]));
    }

    /** A run of requests, up to the first that reads outside the image. */
    method Serve(rs: seq<Request>) returns (sent: seq<Chunk>, broken: bool)
      modifies this
      ensures Session(image, sent, broken) == Run(old(image), rs)
      ensures forall i :: 0 <= i < |sent| ==> SliceOf(sent[i], image)
      ensures (forall i :: 0 <= i < |rs| ==> Sane(rs[i])) ==> !broken
      ensures forall i, f :: old(image) == [] && LoadedAt(rs, i, f) ==> image == f
    {
      hide Answer;
      sent, broken := [], false;
      for n := 0 to |rs|
        invariant Session(image, sent, broken) == Run(old(image), rs[..n])
      {
        assert rs[..n + 1][..n] == rs[..n];
        if !broken {
          var o := FileChunkRequest(rs[n]);
          match o {
            case Nothing =>
            case Answered(c) => sent := sent + [c];
            case OutOfRange => broken := true;
          }
        }
      }
      assert rs[..|rs|] == rs;
      ChunksOfOneImage(old(image), rs);
      if forall i :: 0 <= i < |rs| ==> Sane(rs[i]) {
        SaneIsNeverBroken(old(image), rs);
      }
      forall i, f | old(image) == [] && LoadedAt(rs, i, f) ensures image == f {
        ImageIsTheFile(rs, i, f);
      }
    }
  }
}
