/**
 2.py and src/msgpack_handler.c: the client's request encoder, the part of the MessagePack
 formats it uses, and the server's reading of a request.
 */
module Msgpack {
  import opened Chunks
  import opened FrameDecoder

  datatype Option<T> = None | Some(value: T)

  // ---- the client -------------------------------------------------------------

  /** `struct.pack(">H", n)`. */
  function Big16(n: nat): (b: seq<Byte>)
    requires n < 0x1_0000
    ensures |b| == 2
  {
    [n / 256, n % 256]
  }

  function EncodeUint(n: nat): seq<Byte>
    requires n < 0x1_0000_0000
  {
    if n <= 127 then [n]
    else if n <= 255 then [0xcc, n]
    else if n <= 65535 then [0xcd] + Big16(n)
    else [0xce] + Header(n)
  }

  /** `b` is the UTF-8 form of the string. */
  function EncodeStr(b: seq<Byte>): seq<Byte>
    requires |b| < 0x1_0000_0000
  {
    var n := |b|;
    if n <= 31 then [0xa0 + n] + b
    else if n <= 255 then [0xd9, n] + b
    else if n <= 65535 then [0xda] + Big16(n) + b
    else [0xdb] + Header(n) + b
  }

  function StatusBody(id: nat, cmd: nat, dir: seq<Byte>): seq<Byte>
    requires id < 0x1_0000_0000 && cmd < 0x1_0000_0000 && |dir| < 0x1_0000_0000
  {
    [0x83] + [0x00] + EncodeUint(id) + [0x01] + EncodeUint(cmd) + [0x02] + EncodeStr(dir)
  }

  // ---- MessagePack ------------------------------------------------------------

  /** `Other` is an object of a type the server only refuses: nil, bool, negative, float, bin, ext or array. */
  datatype Object = UInt(n: nat) | Str(s: seq<Byte>) | Map(entries: seq<(Object, Object)>) | Other

  /** An unsigned number of `width` bytes in network order. */
  function Big(b: seq<Byte>): nat {
    if b == [] then 0 else Big(b[..|b| - 1]) * 256 + b[|b| - 1] as int
  }

  /**
   How the first byte announces what follows: a value in place, or a number of `width` bytes and
   its use. `Opaque` is followed by `n` bytes that do not matter here, `Sized` by a number of
   `width` bytes, `extra` bytes and as many bytes as the number says.
   */
  datatype Format =
    | FixInt(n: nat) | UIntOf(width: nat) | IntOf(width: nat)
    | FixStr(n: nat) | StrOf(width: nat)
    | FixMap(n: nat) | MapOf(width: nat)
    | FixArray(n: nat) | ArrayOf(width: nat)
    | Opaque(n: nat) | Sized(width: nat, extra: nat)
    | NeverUsed

  /** The formats of the MessagePack specification. */
  function FormatOf(b: Byte): Format {
    if b <= 0x7f then FixInt(b)
    else if b <= 0x8f then FixMap(b - 0x80)
    else if b <= 0x9f then FixArray(b - 0x90)
    else if b <= 0xbf then FixStr(b - 0xa0)
    else if b >= 0xe0 then Opaque(0)
    else TaggedFormat(b)
  }

  function TaggedFormat(b: Byte): Format {
    if b == 0xc1 then NeverUsed
    else if b <= 0xc3 then Opaque(0)
    else if b == 0xc4 then Sized(1, 0) else if b == 0xc5 then Sized(2, 0) else if b == 0xc6 then Sized(4, 0)
    else if b == 0xc7 then Sized(1, 1) else if b == 0xc8 then Sized(2, 1) else if b == 0xc9 then Sized(4, 1)
    else if b == 0xca then Opaque(4) else if b == 0xcb then Opaque(8)
    else if b == 0xcc then UIntOf(1) else if b == 0xcd then UIntOf(2) else if b == 0xce then UIntOf(4) else if b == 0xcf then UIntOf(8)
    else if b == 0xd0 then IntOf(1) else if b == 0xd1 then IntOf(2) else if b == 0xd2 then IntOf(4) else if b == 0xd3 then IntOf(8)
    else if b == 0xd4 then Opaque(2) else if b == 0xd5 then Opaque(3) else if b == 0xd6 then Opaque(5)
    else if b == 0xd7 then Opaque(9) else if b == 0xd8 then Opaque(17)
    else if b == 0xd9 then StrOf(1) else if b == 0xda then StrOf(2) else if b == 0xdb then StrOf(4)
    else if b == 0xdc then ArrayOf(2) else if b == 0xdd then ArrayOf(4)
    else if b == 0xde then MapOf(2) else MapOf(4)
  }

  /** A number in two's complement; the server knows only whether it is negative. */
  function Signed(b: seq<Byte>): Object {
    if b != [] && b[0] >= 0x80 then Other else UInt(Big(b))
  }

  /** The first object of a byte string and the bytes after it. */
  function Unpack(b: seq<Byte>): (r: Option<(Object, seq<Byte>)>)
    ensures r.Some? ==> |r.value.1| < |b|
    decreases |b|, 0
  {
    if b == [] then None
    else
      var rest := b[1..];
      match FormatOf(b[0])
      case FixInt(n) => Some((UInt(n), rest))
      case UIntOf(w) => if |rest| < w then None else Some((UInt(Big(rest[..w])), rest[w..]))
      case IntOf(w) => if |rest| < w then None else Some((Signed(rest[..w]), rest[w..]))
      case FixStr(n) => if |rest| < n then None else Some((Str(rest[..n]), rest[n..]))
      case StrOf(w) =>
        if |rest| < w then None
        else
          var n, body := Big(rest[..w]), rest[w..];
          if |body| < n then None else Some((Str(body[..n]), body[n..]))
      case FixMap(n) => UnpackMap(rest, n)
      case MapOf(w) => if |rest| < w then None else UnpackMap(rest[w..], Big(rest[..w]))
      case FixArray(n) => UnpackArray(rest, n)
      case ArrayOf(w) => if |rest| < w then None else UnpackArray(rest[w..], Big(rest[..w]))
      case Opaque(n) => if |rest| < n then None else Some((Other, rest[n..]))
      case Sized(w, extra) =>
        if |rest| < w then None
        else
          var n, body := Big(rest[..w]) + extra, rest[w..];
          if |body| < n then None else Some((Other, body[n..]))
      case NeverUsed => None
  }

  /** `n` objects that make an array. */
  function UnpackArray(b: seq<Byte>, n: nat): (r: Option<(Object, seq<Byte>)>)
    ensures r.Some? ==> |r.value.1| <= |b|
    decreases |b|, 1, n
  {
    if n == 0 then Some((Other, b))
    else match Unpack(b)
         case None => None
         case Some((_, b1)) => UnpackArray(b1, n - 1)
  }

  function UnpackMap(b: seq<Byte>, n: nat): (r: Option<(Object, seq<Byte>)>)
    ensures r.Some? ==> |r.value.1| <= |b| && r.value.0.Map?
    decreases |b|, 1, n
  {
    if n == 0 then Some((Map([]), b))
    else match Unpack(b)
         case None => None
         case Some((key, b1)) =>
           match Unpack(b1)
           case None => None
           case Some((val, b2)) =>
             match UnpackMap(b2, n - 1)
             case None => None
             case Some((m, b3)) => Some((Map([(key, val)] + m.entries), b3))
  }

  // ---- the server -------------------------------------------------------------

  datatype Request = GitStatus(id: nat, dir: Option<seq<Byte>>)

  datatype Outcome = Outcome(code: int, request: Option<Request>)

  /** A 64-bit number cast to an enum of 32 bits. */
  function AsEnum(n: nat): nat { n % 0x1_0000_0000 }

  /** The error an entry of the request map is refused with, or 0. */
  function EntryError(e: (Object, Object)): nat {
    match e.0
    case UInt(k) =>
      if AsEnum(k) == 0 && !e.1.UInt? then 2
      else if AsEnum(k) == 1 && !e.1.UInt? then 3
      else if AsEnum(k) == 2 && !e.1.Str? then 4
      else 0
    case _ => 1
  }

  predicate HasKey(e: (Object, Object), key: nat) {
    e.0.UInt? && AsEnum(e.0.n) == key
  }

  /** The first entry that is refused, or the number of entries. */
  function FirstBad(entries: seq<(Object, Object)>): (i: nat)
    ensures i <= |entries|
    ensures i < |entries| ==> EntryError(entries[i]) != 0
    ensures forall j :: 0 <= j < i ==> EntryError(entries[j]) == 0
  {
    if entries == [] then 0
    else
      var i := FirstBad(entries[..|entries| - 1]);
      if i < |entries| - 1 then i
      else if EntryError(entries[|entries| - 1]) != 0 then |entries| - 1 else |entries|
  }

  /** The last value given for a key. */
  function LastValue(entries: seq<(Object, Object)>, key: nat): Option<Object> {
    if entries == [] then None
    else if HasKey(entries[|entries| - 1], key) then Some(entries[|entries| - 1].1)
    else LastValue(entries[..|entries| - 1], key)
  }

  function LastNumber(entries: seq<(Object, Object)>, key: nat): nat {
    match LastValue(entries, key)
    case Some(UInt(n)) => n
    case _ => 0
  }

  function LastString(entries: seq<(Object, Object)>, key: nat): Option<seq<Byte>> {
    match LastValue(entries, key)
    case Some(Str(s)) => Some(s)
    case _ => None
  }

  /** What the server makes of a payload: the answer code and the request it queues, if any. */
  function Handle(data: seq<Byte>): Outcome {
    match Unpack(data)
    case None => Outcome(-1, None)
    case Some((obj, _)) =>
      if !obj.Map? then Outcome(-1, None)
      else
        var es, bad := obj.entries, FirstBad(obj.entries);
        if bad < |es| then Outcome(EntryError(es[bad]), None)
        else
          var id, cmd := LastNumber(es, 0), LastNumber(es, 1);
          Outcome(5, if id != 0 && AsEnum(cmd) == 1 then Some(GitStatus(id, LastString(es, 2))) else None)
  }

  /** `msgpack_handler_recv`; its return value is an error code even after a request was queued. */
  method Recv(data: seq<Byte>) returns (code: int, request: Option<Request>)
    ensures Outcome(code, request) == Handle(data)
  {
    request := None;
    var unpacked := Unpack(data);
    if unpacked.None? || !unpacked.value.0.Map? {
      return -1, None;
    }
    var es := unpacked.value.0.entries;
    hide Unpack, UnpackMap, FirstBad, LastValue;
    NoEntries();
    assert es[..0] == [];
    var id, cmd, i := 0, 0, 0;
    var pwd: Option<seq<Byte>> := None;
    while i < |es|
      invariant 0 <= i <= |es| && FirstBad(es[..i]) == i
      invariant id == LastNumber(es[..i], 0) && cmd == LastNumber(es[..i], 1) && pwd == LastString(es[..i], 2)
    {
      var key, val := es[i].0, es[i].1;
      OneEntry(es, i);
      if !key.UInt? {
        return 1, None;
      }
      if AsEnum(key.n) == 0 {
        if !val.UInt? {
          return 2, None;
        }
        id := val.n;
      } else if AsEnum(key.n) == 1 {
        if !val.UInt? {
          return 3, None;
        }
        cmd := val.n;
      } else if AsEnum(key.n) == 2 {
        if !val.Str? {
          return 4, None;
        }
        pwd := Some(val.s);
      }
      i := i + 1;
    }
    assert es[..i] == es;
    if id != 0 && cmd != 0 {
      if AsEnum(cmd) == 1 {
        request := Some(GitStatus(id, pwd));
      }
    }
    code := 5;
  }

  lemma NoEntries()
    ensures FirstBad([]) == 0 && forall key :: LastValue([], key) == None
  {
  }

  /** What entry `i` adds to a list without errors. */
  lemma OneEntry(es: seq<(Object, Object)>, i: nat)
    requires i < |es| && FirstBad(es[..i]) == i
    ensures if EntryError(es[i]) == 0 then FirstBad(es[..i + 1]) == i + 1 else FirstBad(es) == i
    ensures forall key :: LastValue(es[..i + 1], key) == if HasKey(es[i], key) then Some(es[i].1) else LastValue(es[..i], key)
  {
    assert es[..i + 1][..i] == es[..i] && es[..i + 1][i] == es[i];
    PrefixBad(es, i + 1);
  }

  lemma {:induction false} PrefixBad(es: seq<(Object, Object)>, i: nat)
    requires i <= |es|
    ensures FirstBad(es[..i]) < i ==> FirstBad(es) == FirstBad(es[..i])
    decreases |es|
  {
    if i < |es| {
      var m := |es| - 1;
      assert es[..m][..i] == es[..i];
      PrefixBad(es[..m], i);
    } else {
      assert es[..i] == es;
    }
  }

  /** An entry the server takes: a number as key, numbers for the keys 0 and 1 and a string for key 2. */
  ghost predicate WellTyped(e: (Object, Object)) {
    && e.0.UInt?
    && (e.0.n % 0x1_0000_0000 <= 1 ==> e.1.UInt?)
    && (e.0.n % 0x1_0000_0000 == 2 ==> e.1.Str?)
  }

  /** The answer to a map whose first entry of a wrong type is entry `i`. */
  lemma Refused(data: seq<Byte>, es: seq<(Object, Object)>, rest: seq<Byte>, i: nat)
    requires Unpack(data) == Some((Map(es), rest))
    requires i < |es| && !WellTyped(es[i]) && forall j :: 0 <= j < i ==> WellTyped(es[j])
    ensures var e := es[i];
      Handle(data) == Outcome(if !e.0.UInt? then 1
                              else if e.0.n % 0x1_0000_0000 == 0 then 2
                              else if e.0.n % 0x1_0000_0000 == 1 then 3 else 4, None)
  {
    hide Unpack, FirstBad;
    assert EntryError(es[i]) != 0 && forall j :: 0 <= j < i ==> EntryError(es[j]) == 0;
    assert FirstBad(es) == i;
  }

  /** The answer to anything else. */
  lemma Answered(data: seq<Byte>)
    ensures (Unpack(data).None? || !Unpack(data).value.0.Map?) ==> Handle(data) == Outcome(-1, None)
    ensures Unpack(data).Some? && Unpack(data).value.0.Map? && (forall e <- Unpack(data).value.0.entries :: WellTyped(e)) ==>
              Handle(data).code == 5
  {
    hide Unpack, FirstBad;
    if Unpack(data).Some? && Unpack(data).value.0.Map? && FirstBad(Unpack(data).value.0.entries) < |Unpack(data).value.0.entries| {
      var es := Unpack(data).value.0.entries;
      assert es[FirstBad(es)] in es && !WellTyped(es[FirstBad(es)]);
    }
  }

  // ---- what the client writes, the server reads -------------------------------

  lemma Big1(b: seq<Byte>)
    requires |b| == 1
    ensures Big(b) == b[0]
  {
    assert b[..0] == [];
  }

  lemma Big2(n: nat)
    requires n < 0x1_0000
    ensures Big(Big16(n)) == n
  {
    assert Big16(n)[..1] == [n / 256];
    Big1([n / 256]);
  }

  lemma Big4(n: nat)
    requires n < 0x1_0000_0000
    ensures Big(Header(n)) == n
  {
    var b := Header(n);
    assert b[..3][..2] == b[..2] && b[..2][..1] == b[..1];
    assert Big(b[..1]) == b[0] by { Big1(b[..1]); }
    assert Big(b[..2]) == b[0] as int * 256 + b[1] as int;
    assert Big(b[..3]) == Big(b[..2]) * 256 + b[2] as int;
    HeaderRoundTrip(n);
  }

  /** A number written as a tag and `|len|` bytes. */
  lemma UnpackTagged(tag: Byte, len: seq<Byte>, rest: seq<Byte>)
    requires FormatOf(tag) == UIntOf(|len|)
    ensures Unpack([tag] + len + rest) == Some((UInt(Big(len)), rest))
  {
    var b := [tag] + len + rest;
    assert b[1..] == len + rest;
    assert (len + rest)[..|len|] == len && (len + rest)[|len|..] == rest;
  }

  lemma UnpackUint(n: nat, rest: seq<Byte>)
    requires n < 0x1_0000_0000
    ensures Unpack(EncodeUint(n) + rest) == Some((UInt(n), rest))
  {
    hide Big, Unpack;
    if n <= 127 {
      UnpackFixInt(n, rest);
    } else if n <= 255 {
      Big1([n]);
      UnpackTagged(0xcc, [n], rest);
      assert EncodeUint(n) == [0xcc] + [n];
    } else if n <= 65535 {
      Big2(n);
      UnpackTagged(0xcd, Big16(n), rest);
    } else {
      Big4(n);
      UnpackTagged(0xce, Header(n), rest);
    }
  }

  lemma UnpackFixInt(n: nat, rest: seq<Byte>)
    requires n <= 127
    ensures Unpack([n] + rest) == Some((UInt(n), rest))
  {
    assert ([n] + rest)[1..] == rest;
  }

  /** A string written as a tag, `|len|` bytes of length and the bytes. */
  lemma UnpackTaggedStr(tag: Byte, len: seq<Byte>, s: seq<Byte>, rest: seq<Byte>)
    requires FormatOf(tag) == StrOf(|len|) && Big(len) == |s|
    ensures Unpack([tag] + len + s + rest) == Some((Str(s), rest))
  {
    hide Big;
    var b := [tag] + len + s + rest;
    assert b[1..] == len + (s + rest);
    assert b[1..][..|len|] == len && b[1..][|len|..] == s + rest;
    assert (s + rest)[..|s|] == s && (s + rest)[|s|..] == rest;
  }

  lemma UnpackStr(s: seq<Byte>, rest: seq<Byte>)
    requires |s| < 0x1_0000_0000
    ensures Unpack(EncodeStr(s) + rest) == Some((Str(s), rest))
  {
    hide Big, Unpack;
    var n := |s|;
    if n <= 31 {
      UnpackFixStr(s, rest);
    } else if n <= 255 {
      Big1([n]);
      UnpackTaggedStr(0xd9, [n], s, rest);
      assert EncodeStr(s) == [0xd9] + [n] + s;
    } else if n <= 65535 {
      Big2(n);
      UnpackTaggedStr(0xda, Big16(n), s, rest);
    } else {
      Big4(n);
      UnpackTaggedStr(0xdb, Header(n), s, rest);
    }
  }

  lemma UnpackFixStr(s: seq<Byte>, rest: seq<Byte>)
    requires |s| <= 31
    ensures Unpack([0xa0 + |s|] + s + rest) == Some((Str(s), rest))
  {
    var b := [0xa0 + |s|] + s + rest;
    assert b[1..] == s + rest;
    assert (s + rest)[..|s|] == s && (s + rest)[|s|..] == rest;
  }

  /** One entry with a small key, followed by the rest of the map. */
  lemma UnpackEntry(k: nat, val: seq<Byte>, obj: Object, rest: seq<Byte>, n: nat)
    requires k <= 127 && Unpack(val + rest) == Some((obj, rest))
    ensures UnpackMap([k] + val + rest, n + 1) ==
            match UnpackMap(rest, n) case None => None case Some((m, r)) => Some((Map([(UInt(k), obj)] + m.entries), r))
  {
    hide Unpack;
    assert [k] + val + rest == [k] + (val + rest);
    UnpackFixInt(k, val + rest);
  }

  /** The three entries of a request body, read as a map. */
  lemma UnpackEntries(id: nat, cmd: nat, dir: seq<Byte>)
    requires id < 0x1_0000_0000 && cmd < 0x1_0000_0000 && |dir| < 0x1_0000_0000
    ensures UnpackMap([0] + EncodeUint(id) + ([1] + EncodeUint(cmd) + ([2] + EncodeStr(dir) + [])), 3) ==
            Some((Map([(UInt(0), UInt(id)), (UInt(1), UInt(cmd)), (UInt(2), Str(dir))]), []))
  {
    hide *;
    var third := [2] + EncodeStr(dir) + [];
    var second := [1] + EncodeUint(cmd) + third;
    UnpackNothing([]);
    UnpackStr(dir, []);
    UnpackEntry(2, EncodeStr(dir), Str(dir), [], 0);
    UnpackUint(cmd, third);
    UnpackEntry(1, EncodeUint(cmd), UInt(cmd), third, 1);
    UnpackUint(id, second);
    UnpackEntry(0, EncodeUint(id), UInt(id), second, 2);
    ThreeEntries((UInt(0), UInt(id)), (UInt(1), UInt(cmd)), (UInt(2), Str(dir)));
  }

  lemma ThreeEntries<T>(a: T, b: T, c: T)
    ensures [a] + ([b] + ([c] + [])) == [a, b, c]
  {
  }

  lemma BodyParts(id: nat, cmd: nat, dir: seq<Byte>)
    requires id < 0x1_0000_0000 && cmd < 0x1_0000_0000 && |dir| < 0x1_0000_0000
    ensures StatusBody(id, cmd, dir) == [0x83] + ([0] + EncodeUint(id) + ([1] + EncodeUint(cmd) + ([2] + EncodeStr(dir) + [])))
  {
    hide EncodeUint, EncodeStr;
  }

  /** A map of three entries has the tag 0x83. */
  lemma UnpackFixMap3(rest: seq<Byte>)
    ensures Unpack([0x83] + rest) == UnpackMap(rest, 3)
  {
    hide UnpackMap;
    assert ([0x83] + rest)[1..] == rest;
  }

  /** A request body is read as the map of its three entries. */
  lemma UnpackStatusBody(id: nat, cmd: nat, dir: seq<Byte>)
    requires id < 0x1_0000_0000 && cmd < 0x1_0000_0000 && |dir| < 0x1_0000_0000
    ensures Unpack(StatusBody(id, cmd, dir)) == Some((Map([(UInt(0), UInt(id)), (UInt(1), UInt(cmd)), (UInt(2), Str(dir))]), []))
  {
    hide *;
    BodyParts(id, cmd, dir);
    UnpackEntries(id, cmd, dir);
    UnpackFixMap3([0] + EncodeUint(id) + ([1] + EncodeUint(cmd) + ([2] + EncodeStr(dir) + [])));
  }

  lemma UnpackNothing(b: seq<Byte>)
    ensures UnpackMap(b, 0) == Some((Map([]), b))
  {
  }

  /** A status request comes through with its id and directory exactly if the id is not 0 and the command is 1. */
  lemma StatusRequestHandled(id: nat, cmd: nat, dir: seq<Byte>)
    requires id < 0x1_0000_0000 && cmd < 0x1_0000_0000 && |dir| < 0x1_0000_0000
    ensures Handle(StatusBody(id, cmd, dir)) ==
            Outcome(5, if id != 0 && cmd == 1 then Some(GitStatus(id, Some(dir))) else None)
  {
    hide StatusBody, Unpack;
    UnpackStatusBody(id, cmd, dir);
    var es := [(UInt(0), UInt(id)), (UInt(1), UInt(cmd)), (UInt(2), Str(dir))];
    assert es[..2] == [es[0], es[1]] && es[..2][..1] == [es[0]];
    assert FirstBad(es) == 3;
    assert LastValue(es, 2) == Some(Str(dir));
    assert LastValue(es, 1) == LastValue(es[..2], 1) == Some(UInt(cmd));
    assert LastValue(es, 0) == LastValue(es[..2], 0) == LastValue(es[..2][..1], 0) == Some(UInt(id));
  }

  /**
   From the client's bytes to the queued request: a request message, followed by anything
   and arriving in any chunks, is delivered first with its body intact and handled as
   above, if the body fits; a body of more than 65536 bytes breaks the conversation.
   */
  lemma StatusMessageArrives(id: nat, cmd: nat, dir: seq<Byte>, rest: seq<Byte>, chunks: seq<seq<Byte>>)
    requires id < 0x1_0000_0000 && cmd < 0x1_0000_0000 && |dir| < 0xffff_0000
    requires Flatten(chunks) == Frame(StatusBody(id, cmd, dir)) + rest
    ensures var body, d := StatusBody(id, cmd, dir), Decode(Flatten(chunks));
      if |body| <= 65536 then
        && d.frames == [body] + Decode(rest).frames
        && Handle(d.frames[0]).request == if id != 0 && cmd == 1 then Some(GitStatus(id, Some(dir))) else None
      else
        d == Decoded([], Broken)
  {
    hide Decode, Handle;
    FrameDecodes(StatusBody(id, cmd, dir), rest);
    StatusRequestHandled(id, cmd, dir);
  }
}
