/** EFI device paths: the parser over a 64 KiB buffer and the builder of file paths (sections 10.3.1 and 10.3.5.4 of UEFI 2.10). */
module DevicePath {
  import opened Bytes
  import Unicode

  const BUFFER_SIZE: nat := 0x1_0000
  const MAX_DEPTH: nat := 16
  const END_TYPE: byte := 0x7f
  const END_SUBTYPE: byte := 0xff

  datatype Header = Header(kind: byte, subType: byte, length: uint16) {
    predicate IsEnd() { kind == END_TYPE && subType == END_SUBTYPE }

    /** `DevicePathNode.Bytes`. */
    function Bytes(): (s: seq<byte>)
      ensures |s| == 4
    {
      [kind, subType, length % 0x100, length / 0x100]
    }
  }

  datatype Node = Node(header: Header, data: seq<byte>) {
    function Bytes(): seq<byte> { header.Bytes() + data }
  }

  /** `Abort` is the run-time panic of a slice beyond the buffer. */
  datatype Outcome = Parsed(nodes: seq<Node>, desc: seq<byte>) | LimitExceeded | InvalidLength | Abort

  function HeaderAt(buf: seq<byte>, off: nat): Header
    requires off + 4 <= |buf|
  {
    Header(buf[off], buf[off + 1], buf[off + 2] as int + 0x100 * buf[off + 3] as int)
  }

  /** The concatenated encodings of the nodes. */
  function Encode(nodes: seq<Node>): seq<byte> {
    if |nodes| == 0 then [] else nodes[0].Bytes() + Encode(nodes[1..])
  }

  /** What a node must look like for the parser to take it as one. */
  predicate Accepted(n: Node) {
    && !(n.header.kind == 0x7f && n.header.subType == 0xff)
    && 4 <= n.header.length <= 0xff && |n.data| == n.header.length - 4
  }

  predicate AllAccepted(nodes: seq<Node>) {
    forall i :: 0 <= i < |nodes| ==> Accepted(nodes[i])
  }

  /** The buffer holds the encodings of accepted nodes at `off`. */
  predicate Holds(buf: seq<byte>, off: nat, nodes: seq<Node>) {
    && AllAccepted(nodes)
    && off + |Encode(nodes)| <= |buf|
    && buf[off..off + |Encode(nodes)|] == Encode(nodes)
  }

  lemma SplitSlice(buf: seq<byte>, off: nat, a: seq<byte>, b: seq<byte>)
    requires off + |a| + |b| <= |buf| && buf[off..off + |a| + |b|] == a + b
    ensures buf[off..off + |a|] == a && buf[off + |a|..off + |a| + |b|] == b
  {
    var s := buf[off..off + |a| + |b|];
    assert buf[off..off + |a|] == s[..|a|];
    assert buf[off + |a|..off + |a| + |b|] == s[|a|..];
  }

  /** ... and an end-of-path header behind them. */
  predicate Describes(buf: seq<byte>, nodes: seq<Node>) {
    && Holds(buf, 0, nodes)
    && |Encode(nodes)| + 4 <= |buf|
    && buf[|Encode(nodes)|] == 0x7f && buf[|Encode(nodes)| + 1] == 0xff
  }

  // ----- the parser -----

  /** The bytes a node of this length has behind its header, in 16-bit arithmetic. */
  function DataSize(length: uint16): uint16 { (length as int - 4) % 0x1_0000 }

  /** What one header leads to: the end of the parse, or a node and where the next header is. */
  datatype Turn = Stop(outcome: Outcome) | Take(node: Node, end: nat)

  function Next(buf: seq<byte>, off: nat): (t: Turn)
    ensures t.Stop? && t.outcome.Parsed? ==> t.outcome.nodes == []
  {
    if off + 4 > |buf| then Stop(Abort)
    else
      var h := HeaderAt(buf, off);
      var end := off + 4 + DataSize(h.length);
      if h.IsEnd() then Stop(Parsed([], buf[..off]))
      else if h.length == 0 || h.length > 0xff then Stop(InvalidLength)
      else if end > |buf| then Stop(Abort)
      else Take(Node(h, buf[off + 4..end]), end)
  }

  /** The path from `off` on, when `depth` more headers may be read. */
  function Scan(buf: seq<byte>, off: nat, depth: nat): Outcome
    decreases depth, buf
  {
    if depth == 0 then LimitExceeded
    else match Next(buf, off)
      case Stop(outcome) => outcome
      case Take(node, end) => Behind([node], Scan(buf, end, depth - 1))
  }

  /** The outcome when `nodes` were read before. */
  function Behind(nodes: seq<Node>, r: Outcome): Outcome {
    match r
    case Parsed(rest, desc) => Parsed(nodes + rest, desc)
    case _ => r
  }

  function Parse(buf: seq<byte>): Outcome { Scan(buf, 0, MAX_DEPTH) }

  method DevicePath(buf: seq<byte>) returns (r: Outcome)
    ensures r == Parse(buf)
  {
    var off: nat := 0;
    var nodes: seq<Node> := [];
    var i: nat := 0;
    ghost var goal := Parse(buf);
    assert Behind([], goal) == goal;
    while i <= MAX_DEPTH
      invariant 0 <= i <= MAX_DEPTH
      invariant off <= |buf|
      invariant goal == Behind(nodes, Scan(buf, off, MAX_DEPTH - i))
      decreases MAX_DEPTH - i
    {
      if i == MAX_DEPTH {
        return LimitExceeded;
      }
      if off + 4 > |buf| {
        OneStop(buf, off, MAX_DEPTH - i, nodes);
        return Abort;
      }
      var node := HeaderAt(buf, off);
      if node.kind == END_TYPE && node.subType == END_SUBTYPE {
        OneStop(buf, off, MAX_DEPTH - i, nodes);
        break;
      }
      if node.length == 0 || node.length > 0xff {
        OneStop(buf, off, MAX_DEPTH - i, nodes);
        return InvalidLength;
      }
      var dataSize := DataSize(node.length);
      if off + 4 + dataSize > |buf| {
        OneStop(buf, off, MAX_DEPTH - i, nodes);
        return Abort;
      }
      var d := Node(node, buf[off + 4..off + 4 + dataSize]);
      OneTake(buf, off, MAX_DEPTH - i, nodes, d, off + 4 + dataSize);
      off := off + 4;
      off := off + dataSize;
      nodes := nodes + [d];
      i := i + 1;
    }
    r := Parsed(nodes, buf[..off]);
  }

  lemma OneStop(buf: seq<byte>, off: nat, depth: nat, nodes: seq<Node>)
    requires depth > 0 && Next(buf, off).Stop?
    ensures Behind(nodes, Scan(buf, off, depth))
         == match Next(buf, off).outcome case Parsed(_, desc) => Parsed(nodes, desc) case o => o
  {
    assert nodes + [] == nodes;
  }

  lemma OneTake(buf: seq<byte>, off: nat, depth: nat, nodes: seq<Node>, d: Node, end: nat)
    requires depth > 0 && Next(buf, off) == Take(d, end)
    ensures Behind(nodes, Scan(buf, off, depth)) == Behind(nodes + [d], Scan(buf, end, depth - 1))
  {
    BehindBehind(nodes, [d], Scan(buf, end, depth - 1));
  }

  lemma BehindBehind(a: seq<Node>, b: seq<Node>, r: Outcome)
    ensures Behind(a, Behind(b, r)) == Behind(a + b, r)
  {
    if r.Parsed? {
      assert a + (b + r.nodes) == a + b + r.nodes;
    }
  }

  // ----- what it accepts and what it rejects -----

  lemma {:induction false} EncodedLength(nodes: seq<Node>)
    requires AllAccepted(nodes)
    ensures 4 * |nodes| <= |Encode(nodes)| <= 0xff * |nodes|
  {
    if |nodes| > 0 {
      assert Accepted(nodes[0]);
      EncodedLength(nodes[1..]);
    }
  }

  /** The front node of an encoding is read back, whatever follows. */
  lemma NodeRead(buf: seq<byte>, off: nat, n: Node)
    requires Accepted(n) && off + |n.Bytes()| <= |buf| && buf[off..off + |n.Bytes()|] == n.Bytes()
    ensures HeaderAt(buf, off) == n.header && buf[off + 4..off + |n.Bytes()|] == n.data
    ensures |n.Bytes()| == n.header.length == 4 + DataSize(n.header.length)
  {
    var s := buf[off..off + |n.Bytes()|];
    assert s[0] == n.header.kind && s[1] == n.header.subType;
    assert s[2] == n.header.length % 0x100 && s[3] == n.header.length / 0x100;
    assert s[4..] == n.data;
  }

  /** The parser takes these nodes from `off` on. */
  predicate Takes(buf: seq<byte>, off: nat, nodes: seq<Node>)
    decreases |nodes|
  {
    |nodes| == 0 ||
    (Next(buf, off) == Take(nodes[0], off + |nodes[0].Bytes()|) && Takes(buf, off + |nodes[0].Bytes()|, nodes[1..]))
  }

  /** Accepted nodes that are there are taken, one after the other. */
  lemma {:induction false} HeldIsTaken(buf: seq<byte>, off: nat, nodes: seq<Node>)
    requires Holds(buf, off, nodes)
    ensures Takes(buf, off, nodes)
    decreases |nodes|
  {
    if |nodes| > 0 {
      FirstHeld(buf, off, nodes);
      HeldIsTaken(buf, off + |nodes[0].Bytes()|, nodes[1..]);
    }
  }

  lemma FirstHeld(buf: seq<byte>, off: nat, nodes: seq<Node>)
    requires Holds(buf, off, nodes) && |nodes| > 0
    ensures var end := off + |nodes[0].Bytes()|;
            Next(buf, off) == Take(nodes[0], end) && Holds(buf, end, nodes[1..])
  {
    assert Accepted(nodes[0]);
    RestAccepted(nodes);
    SplitSlice(buf, off, nodes[0].Bytes(), Encode(nodes[1..]));
    NodeRead(buf, off, nodes[0]);
  }

  lemma RestAccepted(nodes: seq<Node>)
    requires |nodes| > 0 && AllAccepted(nodes)
    ensures AllAccepted(nodes[1..])
  {
  }

  lemma {:induction false} NodesTaken(buf: seq<byte>, off: nat, nodes: seq<Node>, depth: nat, stop: nat, left: nat)
    requires Takes(buf, off, nodes)
    requires depth == |nodes| + left && stop == off + |Encode(nodes)|
    ensures Scan(buf, off, depth) == Behind(nodes, Scan(buf, stop, left))
    decreases |nodes|
  {
    if |nodes| == 0 {
      BehindNone(Scan(buf, stop, left));
    } else {
      EncodedCons(nodes);
      NodesTaken(buf, off + |nodes[0].Bytes()|, nodes[1..], depth - 1, stop, left);
      FirstTaken(buf, off, nodes, depth, Scan(buf, stop, left));
    }
  }

  lemma FirstTaken(buf: seq<byte>, off: nat, nodes: seq<Node>, depth: nat, last: Outcome)
    requires 0 < |nodes| && 0 < depth && Takes(buf, off, nodes)
    requires Scan(buf, off + |nodes[0].Bytes()|, depth - 1) == Behind(nodes[1..], last)
    ensures Scan(buf, off, depth) == Behind(nodes, last)
  {
    BehindBehind([nodes[0]], nodes[1..], last);
    assert [nodes[0]] + nodes[1..] == nodes;
  }

  lemma BehindNone(r: Outcome)
    ensures Behind([], r) == r
  {
  }

  lemma EncodedCons(nodes: seq<Node>)
    requires |nodes| > 0
    ensures |Encode(nodes)| == |nodes[0].Bytes()| + |Encode(nodes[1..])|
  {
  }

  lemma OneMoreHeld(buf: seq<byte>, off: nat, n: Node, rest: seq<Node>)
    requires Accepted(n) && off + |n.Bytes()| <= |buf| && buf[off..off + |n.Bytes()|] == n.Bytes()
    requires Holds(buf, off + |n.Bytes()|, rest)
    ensures Holds(buf, off, [n] + rest) && |Encode([n] + rest)| == |n.Bytes()| + |Encode(rest)|
  {
    assert ([n] + rest)[1..] == rest;
    var mid := off + |n.Bytes()|;
    assert buf[off..mid + |Encode(rest)|] == buf[off..mid] + buf[mid..mid + |Encode(rest)|];
  }

  /** Where the parser stops: behind accepted nodes, at the limit or at a header it does not take. */
  lemma {:induction false} Stops(buf: seq<byte>, off: nat, depth: nat) returns (nodes: seq<Node>)
    requires off <= |buf|
    ensures |nodes| <= depth && Holds(buf, off, nodes)
    ensures |nodes| < depth ==>
      var end := off + |Encode(nodes)|;
      || end + 4 > |buf|
      || HeaderAt(buf, end).IsEnd()
      || HeaderAt(buf, end).length < 4 || HeaderAt(buf, end).length > 0xff
      || end + HeaderAt(buf, end).length > |buf|
    decreases depth
  {
    nodes := [];
    if depth > 0 && off + 4 <= |buf| {
      var h := HeaderAt(buf, off);
      if !h.IsEnd() && 4 <= h.length <= 0xff && off + h.length <= |buf| {
        var n := Node(h, buf[off + 4..off + h.length]);
        var rest := Stops(buf, off + h.length, depth - 1);
        nodes := [n] + rest;
        assert buf[off..off + h.length] == n.Bytes();
        OneMoreHeld(buf, off, n, rest);
      }
    }
  }

  /** Where a read ends decides the outcome. */
  lemma EndDecides(buf: seq<byte>, nodes: seq<Node>)
    requires |nodes| <= MAX_DEPTH && Holds(buf, 0, nodes)
    ensures Parse(buf) == Behind(nodes, Scan(buf, |Encode(nodes)|, MAX_DEPTH - |nodes|))
  {
    HeldIsTaken(buf, 0, nodes);
    var left := MAX_DEPTH - |nodes|;
    NodesTaken(buf, 0, nodes, MAX_DEPTH, |Encode(nodes)|, left);
  }

  lemma DescribedIsParsed(buf: seq<byte>, nodes: seq<Node>)
    requires |nodes| < MAX_DEPTH && Describes(buf, nodes)
    ensures Parse(buf) == Parsed(nodes, Encode(nodes))
  {
    EndDecides(buf, nodes);
    assert nodes + [] == nodes;
    assert buf[..|Encode(nodes)|] == buf[0..|Encode(nodes)|];
  }

  /** A scan that succeeds without reading a node is at an end header. */
  lemma StoppedAtEnd(buf: seq<byte>, end: nat, depth: nat)
    requires |buf| == BUFFER_SIZE && Scan(buf, end, depth).Parsed?
    requires depth > 0 ==>
      || end + 4 > |buf|
      || HeaderAt(buf, end).IsEnd()
      || HeaderAt(buf, end).length < 4 || HeaderAt(buf, end).length > 0xff
      || end + HeaderAt(buf, end).length > |buf|
    ensures depth > 0 && end + 4 <= |buf| && HeaderAt(buf, end).IsEnd()
  {
  }

  lemma ParsedIsDescribed(buf: seq<byte>)
    requires |buf| == BUFFER_SIZE && Parse(buf).Parsed?
    ensures var r := Parse(buf); |r.nodes| < MAX_DEPTH && Describes(buf, r.nodes) && r.desc == Encode(r.nodes)
  {
    var read := Stops(buf, 0, MAX_DEPTH);
    EndDecides(buf, read);
    StoppedAtEnd(buf, |Encode(read)|, MAX_DEPTH - |read|);
    DescribedIsParsed(buf, read);
  }

  /** The parser returns a path exactly when the buffer describes it and it has at most 15 nodes. */
  lemma ParsesExactly(buf: seq<byte>, nodes: seq<Node>, desc: seq<byte>)
    requires |buf| == 0x1_0000
    ensures Parse(buf) == Parsed(nodes, desc) <==>
      |nodes| <= 15 && Describes(buf, nodes) && desc == Encode(nodes)
  {
    if Parse(buf).Parsed? {
      ParsedIsDescribed(buf);
    }
    if |nodes| < MAX_DEPTH && Describes(buf, nodes) {
      DescribedIsParsed(buf, nodes);
    }
  }

  /** On the 64 KiB the parser reserves, a path that is returned is short, and reading it stays far inside the buffer. */
  lemma ParsedIsSmall(buf: seq<byte>)
    requires |buf| == 0x1_0000 && Parse(buf).Parsed?
    ensures var r := Parse(buf); |r.nodes| <= 15 && |r.desc| <= 3825 && AllAccepted(r.nodes) && r.desc == Encode(r.nodes)
  {
    var r := Parse(buf);
    ParsesExactly(buf, r.nodes, r.desc);
    EncodedLength(r.nodes);
  }

  /** The header the parser stops at, behind nodes it took. */
  predicate StopsAt(buf: seq<byte>, nodes: seq<Node>, low: int, high: int) {
    && |nodes| < MAX_DEPTH && Holds(buf, 0, nodes)
    && |Encode(nodes)| + 4 <= |buf|
    && !HeaderAt(buf, |Encode(nodes)|).IsEnd()
    && low <= HeaderAt(buf, |Encode(nodes)|).length <= high
  }

  /** A header that is not taken decides the outcome by its length. */
  lemma StoppedBy(buf: seq<byte>, nodes: seq<Node>)
    requires |buf| == BUFFER_SIZE && StopsAt(buf, nodes, 0, 0xffff)
    ensures var length := HeaderAt(buf, |Encode(nodes)|).length;
            && (length == 0 || length > 0xff ==> Parse(buf) == InvalidLength)
            && (1 <= length <= 3 ==> Parse(buf) == Abort)
  {
    EndDecides(buf, nodes);
  }

  /** On 64 KiB a read that does not succeed stops at the limit or at a length out of range. */
  lemma FailureStops(buf: seq<byte>) returns (nodes: seq<Node>)
    requires |buf| == BUFFER_SIZE && !Parse(buf).Parsed?
    ensures (|nodes| == MAX_DEPTH && Holds(buf, 0, nodes) && Parse(buf).LimitExceeded?)
         || StopsAt(buf, nodes, 0, 3) || StopsAt(buf, nodes, 0x100, 0xffff)
  {
    nodes := Stops(buf, 0, MAX_DEPTH);
    EncodedLength(nodes);
    EndDecides(buf, nodes);
  }

  /** Every other outcome has its own reason, and each reason has that outcome. */
  lemma RejectsExactly(buf: seq<byte>)
    requires |buf| == 0x1_0000
    ensures Parse(buf).LimitExceeded? <==> exists nodes :: |nodes| == 16 && Holds(buf, 0, nodes)
    ensures Parse(buf).InvalidLength? <==> exists nodes :: StopsAt(buf, nodes, 0, 0) || StopsAt(buf, nodes, 0x100, 0xffff)
    ensures Parse(buf).Abort? <==> exists nodes :: StopsAt(buf, nodes, 1, 3)
  {
    forall nodes | |nodes| == 16 && Holds(buf, 0, nodes) ensures Parse(buf).LimitExceeded? {
      EndDecides(buf, nodes);
    }
    forall nodes | StopsAt(buf, nodes, 0, 0) || StopsAt(buf, nodes, 0x100, 0xffff) ensures Parse(buf).InvalidLength? {
      StoppedBy(buf, nodes);
    }
    forall nodes | StopsAt(buf, nodes, 1, 3) ensures Parse(buf).Abort? {
      StoppedBy(buf, nodes);
    }
    if !Parse(buf).Parsed? {
      var nodes := FailureStops(buf);
      if StopsAt(buf, nodes, 0, 3) {
        assert StopsAt(buf, nodes, 0, 0) || StopsAt(buf, nodes, 1, 3);
      }
    }
  }

  // ----- file paths -----

  const END: Header := Header(END_TYPE, END_SUBTYPE, 4)

  /** The size of the node for a name: four bytes, and two for each unit and for the NUL. */
  function FileSize(name: seq<Unicode.scalar>): nat { 4 + 2 * (|Unicode.Encode(name)| + 1) }

  /**
   * `file` is the node for `name`: media device path, file path, the units of the name and a zero unit; the
   * length is cut to 16 bits.
   */
  predicate NamesFile(file: Node, name: seq<Unicode.scalar>) {
    && file.header == Header(0x04, 0x04, FileSize(name) % 0x1_0000)
    && 4 + |file.data| == FileSize(name)
    && Unicode.UnitsAt(file.data) == Unicode.Encode(name) + [0]
  }

  /** The firmware reads the name back up to its NUL, exactly when the name has none in it. */
  lemma NameReadBack(file: Node, name: seq<Unicode.scalar>)
    requires NamesFile(file, name)
    ensures Unicode.Decode(Unicode.Terminated(Unicode.UnitsAt(file.data))) == name <==> 0 !in name
  {
    Unicode.NameRoundTrip(name, []);
    Unicode.UnitsStored(Unicode.Encode(name) + [0]);
    assert Unicode.UnitsAt(file.data) + [] == Unicode.UnitsAt(file.data);
  }

  /** The four bytes of a node's header, little-endian. */
  lemma FileBytes(file: Node, name: seq<Unicode.scalar>)
    requires NamesFile(file, name)
    ensures file.Bytes() == [4, 4, FileSize(name) % 0x100, FileSize(name) / 0x100 % 0x100] + file.data
  {
  }

  /** `FS.FilePath`: the device path of the volume, the file node, the end. Failures of the parser are passed on. */
  method FilePath(buf: seq<byte>, name: seq<Unicode.scalar>) returns (r: Outcome, file: Node)
    ensures NamesFile(file, name)
    ensures Unicode.Decode(Unicode.Terminated(Unicode.UnitsAt(file.data))) == name <==> 0 !in name
    ensures file.Bytes() == [4, 4, FileSize(name) % 0x100, FileSize(name) / 0x100 % 0x100] + file.data
    ensures r == match Parse(buf)
                 case Parsed(nodes, desc) => Parsed(nodes, desc + file.Bytes() + [0x7f, 0xff, 4, 0])
                 case failure => failure
  {
    var pathName := Unicode.ToUTF16(name);
    Unicode.UnitsStored(Unicode.Encode(name) + [0]);
    file := Node(Header(0x04, 0x04, (4 + |pathName|) % 0x1_0000), pathName);
    NameReadBack(file, name);
    FileBytes(file, name);
    r := DevicePath(buf);
    if r.Parsed? {
      var desc := r.desc + file.Bytes();
      desc := desc + END.Bytes();
      r := Parsed(r.nodes, desc);
    }
  }

  lemma {:induction false} EncodeSnoc(nodes: seq<Node>, n: Node)
    ensures Encode(nodes + [n]) == Encode(nodes) + n.Bytes()
  {
    if |nodes| == 0 {
      assert (nodes + [n])[1..] == [];
      assert Encode([n][1..]) == [];
    } else {
      assert (nodes + [n])[1..] == nodes[1..] + [n];
      EncodeSnoc(nodes[1..], n);
    }
  }

  /** The buffer a later parse sees: the descriptor, then whatever memory follows, 64 KiB in all. */
  predicate Rereads(again: seq<byte>, desc: seq<byte>) {
    && |again| == BUFFER_SIZE
    && if |desc| <= BUFFER_SIZE then again[..|desc|] == desc else again == desc[..BUFFER_SIZE]
  }

  /** A descriptor built for a file parses back to the volume's nodes and the file's, exactly for short names and room for one more node. */
  lemma FilePathRoundTrip(buf: seq<byte>, name: seq<Unicode.scalar>, file: Node, again: seq<byte>)
    requires |buf| == 0x1_0000 && Parse(buf).Parsed? && NamesFile(file, name)
    requires Rereads(again, Parse(buf).desc + file.Bytes() + [0x7f, 0xff, 4, 0])
    ensures var nodes := Parse(buf).nodes;
            Parse(again) == Parsed(nodes + [file], Parse(buf).desc + file.Bytes()) <==>
              |nodes| <= 14 && 4 + 2 * (|Unicode.Encode(name)| + 1) <= 255
  {
    var nodes, desc := Parse(buf).nodes, Parse(buf).desc;
    ParsedIsSmall(buf);
    assert Accepted(file) <==> FileSize(name) <= 0xff;
    LastAccepted(nodes, file);
    EncodeSnoc(nodes, file);
    if |nodes| <= 14 && FileSize(name) <= 0xff {
      BuiltDescribes(nodes, file, again);
    }
    ParsesExactly(again, nodes + [file], desc + file.Bytes());
  }

  lemma LastAccepted(nodes: seq<Node>, n: Node)
    ensures AllAccepted(nodes + [n]) ==> Accepted(n)
  {
    assert (nodes + [n])[|nodes|] == n;
  }

  lemma BuiltDescribes(nodes: seq<Node>, file: Node, again: seq<byte>)
    requires AllAccepted(nodes) && Accepted(file) && |again| == BUFFER_SIZE
    requires |Encode(nodes)| <= 3825
    requires Rereads(again, Encode(nodes) + file.Bytes() + END.Bytes())
    ensures Describes(again, nodes + [file])
  {
    var s := Encode(nodes) + file.Bytes();
    var desc := s + END.Bytes();
    EncodeSnoc(nodes, file);
    assert |file.Bytes()| <= 0xff;
    assert again[..|s|] == again[..|desc|][..|s|] == s;
    assert again[0..|s|] == again[..|s|];
    assert again[|s|] == desc[|s|] == END_TYPE by { assert again[..|desc|][|s|] == again[|s|]; }
    assert again[|s| + 1] == desc[|s| + 1] == END_SUBTYPE by { assert again[..|desc|][|s| + 1] == again[|s| + 1]; }
  }

  /** A name whose node length does not wrap but exceeds 255 is rejected on the next parse. */
  lemma LongNameRejected(buf: seq<byte>, name: seq<Unicode.scalar>, file: Node, again: seq<byte>)
    requires |buf| == 0x1_0000 && Parse(buf).Parsed? && NamesFile(file, name)
    requires 255 < 4 + 2 * (|Unicode.Encode(name)| + 1) <= 65535
    requires Rereads(again, Parse(buf).desc + file.Bytes() + [0x7f, 0xff, 4, 0])
    ensures Parse(again) == InvalidLength
  {
    var nodes, desc := Parse(buf).nodes, Parse(buf).desc;
    ParsedIsSmall(buf);
    ParsedIsDescribed(buf);
    LongNodeRejected(nodes, desc, file, again);
  }

  lemma LongNodeRejected(nodes: seq<Node>, desc: seq<byte>, file: Node, again: seq<byte>)
    requires |nodes| < MAX_DEPTH && AllAccepted(nodes) && desc == Encode(nodes) && |desc| <= 3825
    requires 0xff < file.header.length && !file.header.IsEnd()
    requires |again| == BUFFER_SIZE && Rereads(again, desc + file.Bytes() + END.Bytes())
    ensures Parse(again) == InvalidLength
  {
    Regroup(desc, file.header.Bytes(), file.data, END.Bytes());
    FrontSeen(again, desc, file.header.Bytes(), file.data + END.Bytes());
    assert HeaderAt(again, |desc|) == file.header;
    assert StopsAt(again, nodes, 0, 0xffff);
    StoppedBy(again, nodes);
  }

  lemma Regroup(a: seq<byte>, b: seq<byte>, c: seq<byte>, d: seq<byte>)
    ensures a + (b + c) + d == a + b + (c + d)
  {
  }

  /** What is near the front of a descriptor is there on the next parse, however long the rest is. */
  lemma FrontSeen(again: seq<byte>, desc: seq<byte>, header: seq<byte>, rest: seq<byte>)
    requires |desc| + |header| <= BUFFER_SIZE && |header| == 4
    requires Rereads(again, desc + header + rest)
    ensures again[0..|desc|] == desc
    ensures forall i :: 0 <= i < 4 ==> again[|desc| + i] == header[i]
  {
    var built := desc + header + rest;
    var seen := if |built| <= BUFFER_SIZE then |built| else BUFFER_SIZE;
    forall i | 0 <= i < |desc| + 4 ensures again[i] == built[i] {
      assert again[..seen][i] == built[..seen][i];
    }
    assert forall i :: 0 <= i < 4 ==> built[|desc| + i] == header[i];
  }
}
