/** src/transport.c: a message buffer that is written, frozen by the first `next`, and read back on the other side. */
module Transport {
  import opened Bytes
  import opened Base64

  const CHUNK_MAX_SIZE := 768
  const CMD_IMPORT: byte := 0
  const N_CMD := 6
  const SIGN_RESPONSE := 64

  datatype Mode = RAW | BASE64
  datatype Code = OK | FAIL | INVALID_CMD

  /** The compressor: deflate at the best level, and inflate of a complete stream. */
  datatype Zip = Zip(deflate: seq<byte> -> seq<byte>, inflate: seq<byte> -> Option<seq<byte>>)

  ghost predicate Inverts(z: Zip) {
    forall x :: z.deflate(x) != [] && z.inflate(z.deflate(x)) == Some(x)
  }

  /** pack (transport.c:104-128): compress into `cap` bytes, encode, cut the final line break. */
  function Pack(z: Zip, data: seq<byte>, cap: nat): Option<seq<byte>> {
    var c := z.deflate(data);
    if |c| > cap || c == [] then None
    else var t := Encode(c); Some(t[..|t| - 1])
  }

  /** unpack (transport.c:130-152). */
  function Unpack(z: Zip, text: seq<byte>, cap: nat): Option<seq<byte>> {
    var c := Decode(text);
    if c == [] then None
    else match z.inflate(c)
      case None => None
      case Some(x) => if |x| > cap then None else Some(x)
  }

  /** Unpacking undoes packing, whatever non-alphabet bytes of the buffer follow the text. */
  lemma UnpackOfPack(z: Zip, data: seq<byte>, tail: seq<byte>, cap: nat, cap': nat)
    requires Inverts(z) && |data| <= cap' && |z.deflate(data)| <= cap
    requires forall i :: 0 <= i < |tail| ==> Value(tail[i]) == None
    ensures Pack(z, data, cap).Some?
    ensures Unpack(z, Pack(z, data, cap).value + tail, cap') == Some(data)
  {
    DecodeOfEncode(z.deflate(data), tail);
  }

  /** What the 767 bytes a reader has for text can hold, in compressed bytes. */
  const DENSE_LIMIT := 567

  /** A frame's text fits the reader's chunk if and only if the frame compresses to at most 567 bytes. */
  lemma TextFits(z: Zip, frame: seq<byte>, cap: nat)
    requires Inverts(z) && |z.deflate(frame)| <= cap
    ensures Pack(z, frame, cap).Some?
    ensures |Pack(z, frame, cap).value| <= CHUNK_MAX_SIZE - 1 <==> |z.deflate(frame)| <= DENSE_LIMIT
  {
    hide EncodeFrom;
    EncodedLength(z.deflate(frame), 0);
  }

  /** A frame whose compressed form fits the writer's buffer and the reader's chunk. */
  predicate Dense(z: Zip, cap: nat, frame: seq<byte>) {
    |z.deflate(frame)| <= cap && |z.deflate(frame)| <= DENSE_LIMIT
  }

  /** C's `char` is signed: a command byte with the top bit set is negative and so below KEE_N_CMD. */
  predicate ValidCommand(cmd: byte) {
    cmd < N_CMD || cmd >= 128
  }

  /** A command with the signed-response bit set. */
  function Flagged(cmd: byte): (f: byte)
    ensures f / SIGN_RESPONSE % 2 == 1 && f % SIGN_RESPONSE == cmd % SIGN_RESPONSE && f / 128 == cmd / 128
  {
    if cmd / SIGN_RESPONSE % 2 == 0 then cmd + SIGN_RESPONSE else cmd
  }

  /** struct kee_transport_t. `chunk` is chunker.data, `offset` where the `data` pointer stands in it; the command byte
      is always chunk[0]. */
  class Message {
    var mode: Mode
    const chunk: array<byte>
    var dataLen: nat
    var crsr: nat
    var state: nat
    var offset: nat

    ghost predicate Valid()
      reads this, chunk
    {
      chunk.Length == CHUNK_MAX_SIZE && state <= 1 && (state == 0 ==> offset == 0 && 1 <= crsr <= CHUNK_MAX_SIZE)
    }

    constructor ()
      ensures chunk.Length == CHUNK_MAX_SIZE && fresh(chunk)
    {
      mode, dataLen, crsr, state, offset := RAW, 0, 0, 0, 0;
      chunk := new byte[CHUNK_MAX_SIZE](_ => 0);
    }

    /** kee_transport_single (transport.c:155-172). */
    method Single(mode: Mode, cmd: byte, dataLen: nat) returns (r: Code)
      requires chunk.Length == CHUNK_MAX_SIZE
      modifies this, chunk
      ensures r == if ValidCommand(cmd) then OK else INVALID_CMD
      ensures r == OK <==> (if cmd >= 128 then cmd - 256 else cmd as int) < 6
      ensures r == OK ==>
                && Valid() && this.mode == mode && state == 0 && offset == 0 && crsr == 1
                && this.dataLen == (if dataLen == 0 then CHUNK_MAX_SIZE else dataLen + 1)
                && chunk[..] == [cmd] + Zeros(CHUNK_MAX_SIZE - 1)
    {
      forall i | 0 <= i < chunk.Length {
        chunk[i] := 0;
      }
      this.mode, this.dataLen, crsr, state, offset := RAW, 0, 0, 0, 0;
      if !ValidCommand(cmd) {
        return INVALID_CMD;
      }
      if dataLen == 0 {
        this.dataLen := CHUNK_MAX_SIZE;
      } else {
        this.dataLen := dataLen + 1;
      }
      this.mode := mode;
      chunk[0] := cmd;
      crsr := 1;
      return OK;
    }

    /** kee_transport_set_response (transport.c:189-193). */
    method SetResponse()
      requires Valid()
      modifies chunk
      ensures Valid() && chunk[1..] == old(chunk[1..])
      ensures chunk[0] == if state == 0 then Flagged(old(chunk[0])) else old(chunk[0])
    {
      if state == 0 && chunk[0] / SIGN_RESPONSE % 2 == 0 {
        chunk[0] := chunk[0] + SIGN_RESPONSE;
      }
    }

    /** kee_transport_write (transport.c:195-202): only before the first `next`. */
    method Write(data: seq<byte>) returns (r: Code)
      requires Valid() && (state == 0 ==> crsr + |data| <= CHUNK_MAX_SIZE)
      modifies this`crsr, chunk
      ensures Valid() && r == if state == 0 then OK else FAIL
      ensures r == FAIL ==> crsr == old(crsr) && chunk[..] == old(chunk[..])
      ensures r == OK ==> crsr == old(crsr) + |data|
                          && chunk[..] == old(chunk[..])[..old(crsr)] + data + old(chunk[..])[old(crsr) + |data|..]
    {
      if state != 0 {
        return FAIL;
      }
      ghost var was := chunk[..];
      forall i | 0 <= i < |data| {
        chunk[crsr + i] := data[i];
      }
      assert chunk[..] == was[..crsr] + data + was[crsr + |data|..];
      crsr := crsr + |data|;
      return OK;
    }

    /** What a `next` delivers from frozen contents. */
    function Output(z: Zip, frozen: seq<byte>, cap: nat): Option<seq<byte>>
      reads this
    {
      if |frozen| >= CHUNK_MAX_SIZE - 1 then None
      else if mode == RAW then Some(frozen)
      else Pack(z, frozen, cap)
    }

    /** The bytes the message holds: what was written, or what was frozen. */
    function Contents(): seq<byte>
      requires chunk.Length == CHUNK_MAX_SIZE && (if state == 0 then crsr else dataLen) <= CHUNK_MAX_SIZE
      reads this, chunk
    {
      chunk[..if state == 0 then crsr else dataLen]
    }

    /** kee_transport_next (transport.c:206-244). The first call freezes the message; every call delivers the same. */
    method Next(z: Zip, cap: nat) returns (r: Code, out: seq<byte>)
      requires Valid() && (state == 1 ==> crsr == 0 && dataLen <= CHUNK_MAX_SIZE)
      modifies this`state, this`crsr, this`dataLen
      ensures Valid() && state == 1 && crsr == 0 && dataLen <= CHUNK_MAX_SIZE
      ensures Contents() == old(Contents())
      ensures r == if Output(z, Contents(), cap).Some? then OK else FAIL
      ensures |Contents()| >= 767 ==> r == FAIL
      ensures mode == RAW && |Contents()| < 767 ==> r == OK && out == Contents()
      ensures mode == BASE64 && |Contents()| < 767 ==> (r == OK <==> 0 < |z.deflate(Contents())| <= cap)
      ensures r == OK ==> out == Output(z, Contents(), cap).value
    {
      if state == 0 {
        dataLen := crsr;
        crsr := 0;
        state := 1;
      }
      var remaining := dataLen - crsr;
      if remaining >= CHUNK_MAX_SIZE - 1 {
        return FAIL, [];
      }
      if mode == RAW {
        return OK, chunk[..remaining];
      }
      match Pack(z, chunk[..remaining], cap)
      case None =>
        return FAIL, [];
      case Some(t) =>
        return OK, t;
    }

    /** The memory a read of the chunk can reach: the chunk and the low byte of the length field behind it. */
    function Memory(): (m: seq<byte>)
      reads this, chunk
      ensures |m| == chunk.Length + 1
    {
      chunk[..] + [dataLen % 256]
    }

    /** Where the reader's window starts. */
    function WindowStart(): nat
      requires chunk.Length > 0
      reads this, chunk
    {
      if chunk[0] == CMD_IMPORT then offset + 1 else offset
    }

    /** kee_transport_read in text mode (transport.c:247-277). An import takes its command from the unpacked bytes and
        leaves the rest as the payload. `beyond` is the byte of the caller's buffer after the unpacked ones, which the
        first copy also moves. */
    method Read(z: Zip, cap: nat, beyond: byte) returns (r: Code, out: seq<byte>)
      requires chunk.Length == CHUNK_MAX_SIZE && mode == BASE64 && WindowStart() + dataLen <= CHUNK_MAX_SIZE + 1
      requires var u := Unpack(z, Memory()[WindowStart()..WindowStart() + dataLen], cap);
               chunk[0] == CMD_IMPORT && u.Some? ==> u.value != [] && WindowStart() + |u.value| <= CHUNK_MAX_SIZE
      modifies this`offset, chunk
      ensures offset == old(WindowStart())
      ensures var u := old(Unpack(z, Memory()[WindowStart()..WindowStart() + dataLen], cap));
              && (u.None? ==> r == FAIL && chunk[..] == old(chunk[..]))
              && (u.Some? && old(chunk[0]) != CMD_IMPORT ==> r == OK && out == u.value && chunk[..] == old(chunk[..]))
              && (u.Some? && old(chunk[0]) == CMD_IMPORT ==> r == OK && chunk[0] == u.value[0] && out == u.value[1..])
    {
      var importing := chunk[0] == CMD_IMPORT;
      if importing {
        offset := offset + 1;
      }
      match Unpack(z, Memory()[offset..offset + dataLen], cap)
      case None =>
        return FAIL, [];
      case Some(x) =>
        out := x;
        if importing {
          chunk[0] := out[0];
          var copied := out[1..] + [beyond];
          forall i | 0 <= i < |copied| {
            chunk[offset + i] := copied[i];
          }
          out := chunk[offset..offset + |out| - 1];
          assert out == x[1..];
        }
        return OK, out;
    }
  }

  /** One message from writer to reader: single, set_response if wanted, write and next on one side, single for an
      import, write and read on the other. Command, flag and payload arrive for every command and payload whose frame
      is at most 766 bytes and whose text fits the chunk, although the reader decodes the whole buffer. */
  method Exchange(z: Zip, cmd: byte, respond: bool, payload: seq<byte>, cap: nat, cap': nat, beyond: byte)
    returns (cmd': byte, payload': seq<byte>)
    requires Inverts(z) && ValidCommand(cmd) && 1 + |payload| <= CHUNK_MAX_SIZE - 2 && 1 + |payload| <= cap'
    requires Dense(z, cap, [if respond then Flagged(cmd) else cmd] + payload)
    ensures cmd' == (if respond then Flagged(cmd) else cmd) && payload' == payload
  {
    hide Pack, Unpack, Flagged, Dense;
    ghost var frame := [if respond then Flagged(cmd) else cmd] + payload;
    FrameArrives(z, frame, cap, cap');
    var text := SendText(z, cmd, respond, payload, cap);
    cmd', payload' := ReadText(z, text, cap', beyond, frame);
    assert cmd' == ([cmd'] + payload')[0] == frame[0] && payload' == ([cmd'] + payload')[1..] == frame[1..];
    assert frame[1..] == payload;
  }

  /** The writer's side. */
  method SendText(z: Zip, cmd: byte, respond: bool, payload: seq<byte>, cap: nat) returns (text: seq<byte>)
    requires ValidCommand(cmd) && 1 + |payload| <= CHUNK_MAX_SIZE - 2
    requires Pack(z, [if respond then Flagged(cmd) else cmd] + payload, cap).Some?
    ensures text == Pack(z, [if respond then Flagged(cmd) else cmd] + payload, cap).value
  {
    hide Pack, Flagged;
    var sender := new Message();
    var r := sender.Single(BASE64, cmd, |payload|);
    if respond {
      sender.SetResponse();
    }
    ghost var first := sender.chunk[0];
    r := sender.Write(payload);
    assert sender.Contents() == [first] + payload;
    r, text := sender.Next(z, cap);
  }

  /** The reader's side: whatever text unpacks to a frame, the zeros of the buffer after it included. */
  method ReadText(z: Zip, text: seq<byte>, cap: nat, beyond: byte, ghost frame: seq<byte>)
    returns (cmd: byte, payload: seq<byte>)
    requires |text| <= CHUNK_MAX_SIZE - 1 && 0 < |frame| <= CHUNK_MAX_SIZE - 2
    requires Unpack(z, text + Zeros(CHUNK_MAX_SIZE - |text|), cap) == Some(frame)
    ensures [cmd] + payload == frame
  {
    hide Unpack;
    var receiver := new Message();
    var r := receiver.Single(BASE64, CMD_IMPORT, 0);
    r := receiver.Write(text);
    ImportWindow(text, receiver.Memory());
    r, payload := receiver.Read(z, cap, beyond);
    cmd := receiver.chunk[0];
  }

  lemma FrameArrives(z: Zip, frame: seq<byte>, cap: nat, cap': nat)
    requires Inverts(z) && Dense(z, cap, frame) && |frame| <= cap'
    ensures Pack(z, frame, cap).Some?
    ensures var text := Pack(z, frame, cap).value;
            |text| <= CHUNK_MAX_SIZE - 1 && Unpack(z, text + Zeros(CHUNK_MAX_SIZE - |text|), cap') == Some(frame)
  {
    TextFits(z, frame, cap);
    var text := Pack(z, frame, cap).value;
    var tail := Zeros(CHUNK_MAX_SIZE - |text|);
    ZerosAreSkipped(tail);
    UnpackOfPack(z, frame, tail, cap, cap');
    hide Pack, Unpack, Value;
  }

  /** The window an import decodes: the text, then zeros up to and including the byte behind the chunk. */
  lemma ImportWindow(text: seq<byte>, memory: seq<byte>)
    requires 1 + |text| <= CHUNK_MAX_SIZE
    requires memory == ([CMD_IMPORT] + Zeros(CHUNK_MAX_SIZE - 1))[..1] + text
                       + ([CMD_IMPORT] + Zeros(CHUNK_MAX_SIZE - 1))[1 + |text|..] + [0]
    ensures memory[1..1 + CHUNK_MAX_SIZE] == text + Zeros(CHUNK_MAX_SIZE - |text|)
  {
  }

  lemma ZerosAreSkipped(tail: seq<byte>)
    requires forall i :: 0 <= i < |tail| ==> tail[i] == 0
    ensures forall i :: 0 <= i < |tail| ==> Value(tail[i]) == None
  {
  }
}
