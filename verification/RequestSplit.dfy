/** Cutting a TCP byte stream into Modbus requests by the length in their headers, however it is read. */
module RequestSplit {
  import opened Bytes
  import opened Pdu
  import opened Transport
  import opened Transaction

  /** The length that a header announces. */
  function Announced(data: seq<byte>): (n: nat)
    requires |data| >= 6
    ensures n >= 6
  {
    Word(data[4], data[5]) + 6
  }

  /** `nb_modbus_reqlen`: its argument `size` has 8 bits. Zero means that no request is complete. */
  function ReqLen(data: seq<byte>): (n: nat)
    ensures n == 0 || 6 <= n <= |data|
  {
    var size := |data| % 256;
    if size < 6 then 0
    else if size < Announced(data) then 0
    else Announced(data)
  }

  datatype Cut = Cut(requests: seq<seq<byte>>, left: seq<byte>)

  /** What `parse_buffer` does with the bytes of the read buffer. */
  function Parsed(data: seq<byte>): (c: Cut)
    decreases |data|
  {
    var n := ReqLen(data);
    if n == 0 then Cut([], data)
    else
      var rest := Parsed(data[n..]);
      Cut([data[..n]] + rest.requests, rest.left)
  }

  /** What it is meant to do: pass every complete request on. */
  function Cutting(data: seq<byte>): (c: Cut)
    decreases |data|
  {
    if |data| < 6 || |data| < Announced(data) then Cut([], data)
    else
      var rest := Cutting(data[Announced(data)..]);
      Cut([data[..Announced(data)]] + rest.requests, rest.left)
  }

  function Flattened(requests: seq<seq<byte>>): seq<byte> {
    if requests == [] then [] else requests[0] + Flattened(requests[1..])
  }

  lemma ParsedStep(data: seq<byte>)
    ensures var n := ReqLen(data);
            if n == 0 then Parsed(data) == Cut([], data)
            else
              Parsed(data) == Cut([data[..n]] + Parsed(data[n..]).requests, Parsed(data[n..]).left)
  {
    hide ReqLen;
  }

  /** Nothing is lost and nothing invented: the requests, followed by what is left, are the bytes. */
  lemma {:induction false} ParsedKeepsAll(data: seq<byte>)
    ensures Flattened(Parsed(data).requests) + Parsed(data).left == data
    decreases |data|
  {
    hide Parsed, Flattened, ReqLen;
    var n := ReqLen(data);
    ParsedStep(data);
    if n == 0 {
      FlattenedNone(data);
    } else {
      ParsedKeepsAll(data[n..]);
      FlattenedCons(data[..n], Parsed(data[n..]).requests, Parsed(data[n..]).left);
      assert data[..n] + data[n..] == data;
    }
  }

  /** Every pass takes a whole header at least, and never more than 255 bytes. */
  lemma {:induction false} RequestsBounded(data: seq<byte>)
    ensures forall r <- Parsed(data).requests :: 6 <= |r| < 256
    decreases |data|
  {
    var n := ReqLen(data);
    ParsedStep(data);
    hide Parsed;
    if n > 0 {
      RequestsBounded(data[n..]);
    }
  }

  lemma FlattenedNone(left: seq<byte>)
    ensures Flattened([]) + left == left
  {
  }

  lemma FlattenedCons(r: seq<byte>, requests: seq<seq<byte>>, left: seq<byte>)
    ensures Flattened([r] + requests) + left == r + (Flattened(requests) + left)
  {
    assert ([r] + requests)[1..] == requests;
  }

  /** The code does what it is meant to do with the read buffer exactly when this holds fewer than 256 bytes, or
      no complete request anyway. */
  lemma {:induction false} ParsedIsCutting(data: seq<byte>)
    requires |data| <= MAX_TCP_ADU
    ensures Parsed(data) == Cutting(data) <==> (|data| < 256 || Cutting(data).requests == [])
    decreases |data|
  {
    if |data| < 256 && ReqLen(data) > 0 {
      ParsedIsCutting(data[ReqLen(data)..]);
    }
  }

  // ----- any sequence of reads -----

  /** All reads of a connection: each chunk is put behind what was left over and the whole is parsed. */
  function AfterReads(left: seq<byte>, chunks: seq<seq<byte>>): (c: Cut)
    decreases |chunks|
  {
    if chunks == [] then Cut([], left)
    else
      var first := Parsed(left + chunks[0]);
      var rest := AfterReads(first.left, chunks[1..]);
      Cut(first.requests + rest.requests, rest.left)
  }

  lemma {:induction false} AfterOneMoreRead(left: seq<byte>, chunks: seq<seq<byte>>, chunk: seq<byte>)
    ensures var before := AfterReads(left, chunks);
            var last := Parsed(before.left + chunk);
            AfterReads(left, chunks + [chunk]) == Cut(before.requests + last.requests, last.left)
    ensures Flattened(chunks + [chunk]) == Flattened(chunks) + chunk
    decreases |chunks|
  {
    hide Parsed;
    if chunks == [] {
      assert [] + [chunk] == [chunk] && [chunk][1..] == [];
      assert AfterReads(left, [chunk]) == Cut(Parsed(left + chunk).requests + [], Parsed(left + chunk).left);
    } else {
      assert (chunks + [chunk])[1..] == chunks[1..] + [chunk];
      AfterOneMoreRead(Parsed(left + chunks[0]).left, chunks[1..], chunk);
    }
  }

  /** Every read has room in the buffer. */
  predicate Fits(left: seq<byte>, chunks: seq<seq<byte>>)
    decreases |chunks|
  {
    chunks != [] ==> |left + chunks[0]| <= MAX_TCP_ADU && Fits(Parsed(left + chunks[0]).left, chunks[1..])
  }

  /** No read leaves 256 bytes or more with a complete request among them. */
  predicate Handled(left: seq<byte>, chunks: seq<seq<byte>>)
    decreases |chunks|
  {
    chunks != [] ==>
      var data := left + chunks[0];
      (|data| < 256 || Cutting(data).requests == []) && Handled(Parsed(data).left, chunks[1..])
  }

  /** Cutting in two goes is cutting at once. */
  lemma {:induction false} CuttingResumes(a: seq<byte>, b: seq<byte>)
    ensures Cutting(a + b)
            == Cut(Cutting(a).requests + Cutting(Cutting(a).left + b).requests, Cutting(Cutting(a).left + b).left)
    decreases |a|
  {
    hide Cutting;
    CuttingStep(a);
    if |a| < 6 || |a| < Announced(a) {
      assert [] + Cutting(a + b).requests == Cutting(a + b).requests;
    } else {
      var n := Announced(a);
      CuttingStep(a + b);
      assert (a + b)[..n] == a[..n] && (a + b)[n..] == a[n..] + b;
      CuttingResumes(a[n..], b);
      Associative([a[..n]], Cutting(a[n..]).requests, Cutting(Cutting(a).left + b).requests);
    }
  }

  lemma CuttingStep(data: seq<byte>)
    ensures Cutting(data)
            == if |data| < 6 || |data| < Announced(data) then Cut([], data)
               else
                 Cut([data[..Announced(data)]] + Cutting(data[Announced(data)..]).requests,
                     Cutting(data[Announced(data)..]).left)
  {
    hide Announced;
  }

  lemma Associative<T>(a: seq<T>, b: seq<T>, c: seq<T>)
    ensures a + (b + c) == a + b + c
  {
  }

  /** However the stream is split into reads, the same requests are passed on - exactly when no read leaves 256
      bytes or more with a complete request among them. */
  lemma {:induction false} SplitIndependent(left: seq<byte>, chunks: seq<seq<byte>>)
    requires Cutting(left).requests == [] && Fits(left, chunks)
    ensures AfterReads(left, chunks) == Cutting(left + Flattened(chunks)) <==> Handled(left, chunks)
    decreases |chunks|
  {
    hide Parsed, Cutting;
    if chunks == [] {
      assert left + [] == left;
      CuttingStep(left);
    } else {
      var data, later := left + chunks[0], Flattened(chunks[1..]);
      assert data + later == left + Flattened(chunks);
      ParsedIsCutting(data);
      CuttingStops(data);
      CuttingResumes(data, later);
      var first := Parsed(data);
      if |data| < 256 || Cutting(data).requests == [] {
        SplitIndependent(first.left, chunks[1..]);
        SameTail(first.requests, AfterReads(first.left, chunks[1..]).requests, Cutting(first.left + later).requests);
      } else {
        Overfull(data);
        OverfullStalls(data, chunks[1..]);
      }
    }
  }

  lemma SameTail<T>(a: seq<T>, x: seq<T>, y: seq<T>)
    ensures a + x == a + y <==> x == y
  {
    assert (a + x)[|a|..] == x && (a + y)[|a|..] == y;
  }

  lemma Overfull(data: seq<byte>)
    requires 256 <= |data| <= MAX_TCP_ADU
    ensures Parsed(data) == Cut([], data)
  {
  }

  /** Once 256 bytes are in the buffer, nothing is passed on any more. */
  lemma {:induction false} OverfullStalls(left: seq<byte>, chunks: seq<seq<byte>>)
    requires 256 <= |left| && Fits(left, chunks)
    ensures AfterReads(left, chunks).requests == []
    decreases |chunks|
  {
    hide Parsed;
    if chunks != [] {
      Overfull(left + chunks[0]);
      OverfullStalls(left + chunks[0], chunks[1..]);
    }
  }

  lemma {:induction false} CuttingStops(data: seq<byte>)
    ensures Cutting(Cutting(data).left) == Cut([], Cutting(data).left)
    decreases |data|
  {
    if |data| >= 6 && |data| >= Announced(data) {
      CuttingStops(data[Announced(data)..]);
    }
  }

  // ----- requests of the library's client -----

  lemma AnnouncedIsLength(tid: word, unit: byte, pdu: seq<byte>, more: seq<byte>)
    requires |pdu| <= MAX_PDU
    ensures Announced(Adu(Tcp, tid, unit, pdu) + more) == |Adu(Tcp, tid, unit, pdu)|
  {
  }

  /** Requests sent one after another are the requests cut. */
  lemma {:induction false} PipelinedRequestsCut(requests: seq<seq<byte>>, more: seq<byte>)
    requires forall r <- requests :: |r| >= 6 && Announced(r) == |r|
    requires |more| < 6 || |more| < Announced(more)
    ensures Cutting(Flattened(requests) + more) == Cut(requests, more)
    decreases |requests|
  {
    if requests == [] {
      assert [] + more == more;
    } else {
      var r, rest := requests[0], Flattened(requests[1..]) + more;
      assert Flattened(requests) + more == r + rest;
      assert (r + rest)[..|r|] == r && (r + rest)[|r|..] == rest;
      PipelinedRequestsCut(requests[1..], more);
      assert [r] + requests[1..] == requests;
    }
  }

  /** A client's request that arrives alone is passed on exactly when it is shorter than 256 bytes; the standard
      allows four bytes more. */
  lemma ClientRequestPasses(tid: word, unit: byte, call: Call)
    requires !TooMuch(call)
    ensures var req := Adu(Tcp, tid, unit, RequestPdu(call));
            Parsed(req) == (if |req| < 256 then Cut([req], []) else Cut([], req))
  {
    var pdu := RequestPdu(call);
    var req := Adu(Tcp, tid, unit, pdu);
    AnnouncedIsLength(tid, unit, pdu, []);
    hide RequestPdu, Adu, Parsed, Announced;
    assert req + [] == req;
    WholeRequest(req);
  }

  lemma WholeRequest(req: seq<byte>)
    requires 6 <= |req| <= MAX_TCP_ADU && Announced(req) == |req|
    ensures Parsed(req) == (if |req| < 256 then Cut([req], []) else Cut([], req))
    ensures Cutting(req) == Cut([req], [])
  {
    hide Announced;
    assert req[|req|..] == [] && req[..|req|] == req;
    ParsedStep([]);
  }

  /** Writing 122 registers is legal, and the request never gets through. */
  lemma LongWriteStalls(tid: word, unit: byte, addr: nat, values: seq<word>)
    requires 122 <= |values| <= 123 && addr < 65536
    ensures var req := Adu(Tcp, tid, unit, RequestPdu(WriteRegisters(addr, values)));
            !TooMuch(WriteRegisters(addr, values)) && Cutting(req) == Cut([req], []) && Parsed(req) == Cut([], req)
  {
    var call := WriteRegisters(addr, values);
    var req := Adu(Tcp, tid, unit, RequestPdu(call));
    PayloadCount(call);
    ClientRequestPasses(tid, unit, call);
    AnnouncedIsLength(tid, unit, RequestPdu(call), []);
    hide RequestPdu, Adu, Parsed, Announced, Cutting;
    assert req + [] == req;
    WholeRequest(req);
  }
}
