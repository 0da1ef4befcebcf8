/** The OSC wire format of wing_parser/net/codec.py.

    Strings travel as ASCII; a float is the four bytes that travel. The offsets follow the language's slices, so
    that a reply with a negative blob length is read as the program reads it. */
module Codec {
  import opened Results

  newtype byte = x: int | 0 <= x < 256

  type Bytes = seq<byte>

  datatype Error = NotAscii | IntRange | UnsupportedTag(tag: char) | WrongArgument | NoTerminator | NoTypeTag
      | Truncated | NotALeafReply

  datatype Arg = S(text: string) | F(bits: Bytes) | I(value: int) | B(blob: Bytes)

  datatype Message = Message(address: string, typetag: string, args: seq<Arg>)

  // ----- fields

  /** How many zero bytes round `n` up to a multiple of four. */
  function Fill(n: nat): nat {
    if n % 4 == 0 then 0 else 4 - n % 4
  }

  function Zeros(n: nat): Bytes {
    seq(n, _ => 0 as byte)
  }

  function Pad(data: Bytes): Bytes {
    data + Zeros(Fill(|data|))
  }

  predicate IsAscii(text: string) {
    forall k :: 0 <= k < |text| ==> text[k] as int < 128
  }

  predicate NoNul(text: string) {
    forall k :: 0 <= k < |text| ==> text[k] as int != 0
  }

  function Ascii(text: string): Bytes
    requires IsAscii(text)
  {
    seq(|text|, i requires 0 <= i < |text| => text[i] as int as byte)
  }

  function EncodeString(text: string): Bytes
    requires IsAscii(text)
  {
    Pad(Ascii(text) + [0])
  }

  predicate InInt32(i: int) {
    -0x8000_0000 <= i < 0x8000_0000
  }

  function Top(n: nat): nat {
    if n == 0 then 1 else 256 * Top(n - 1)
  }

  /** The last `n` base-256 digits, most significant first. */
  function Digits(u: nat, n: nat): (r: Bytes)
    ensures |r| == n
    decreases n
  {
    if n == 0 then [] else Digits(u / 256, n - 1) + [(u % 256) as byte]
  }

  function Number(digits: Bytes): (u: nat)
    ensures u < Top(|digits|)
  {
    if digits == [] then 0 else Number(digits[..|digits| - 1]) * 256 + digits[|digits| - 1] as int
  }

  lemma {:induction false} NumberDigits(u: nat, n: nat)
    requires u < Top(n)
    ensures Number(Digits(u, n)) == u
    decreases n
  {
    if n > 0 {
      NumberDigits(u / 256, n - 1);
      assert Digits(u, n)[..n - 1] == Digits(u / 256, n - 1);
    }
  }

  /** Big-endian two's complement. */
  function PackInt(i: int): Bytes
    requires InInt32(i)
  {
    Digits(if i < 0 then i + 0x1_0000_0000 else i, 4)
  }

  lemma TopFour()
    ensures Top(4) == 0x1_0000_0000
  {
    assert Top(1) == 256 && Top(2) == 0x1_0000 && Top(3) == 0x100_0000;
  }

  function UnpackInt(data: Bytes): (i: int)
    requires |data| == 4
    ensures InInt32(i)
  {
    TopFour();
    var u := Number(data);
    if u >= 0x8000_0000 then u - 0x1_0000_0000 else u
  }

  lemma UnpackPack(i: int)
    requires InInt32(i)
    ensures UnpackInt(PackInt(i)) == i
  {
    TopFour();
    NumberDigits(if i < 0 then i + 0x1_0000_0000 else i, 4);
  }

  /** A field is the text's characters, then zero bytes: at least one, at most four, up to a multiple of four. */
  lemma StringLayout(text: string)
    requires IsAscii(text)
    ensures var field := EncodeString(text);
      && |field| % 4 == 0 && |text| < |field| <= |text| + 4
      && (forall k :: 0 <= k < |text| ==> field[k] as int == text[k] as int)
      && (forall k :: |text| <= k < |field| ==> field[k] == 0)
  {
  }

  /** Padding adds at most three zero bytes, up to a multiple of four. */
  lemma PadLayout(data: Bytes)
    ensures |Pad(data)| % 4 == 0 && |data| <= |Pad(data)| < |data| + 4
    ensures Pad(data)[..|data|] == data && forall k :: |data| <= k < |Pad(data)| ==> Pad(data)[k] == 0
  {
  }

  /** The number that four bytes stand for, the most significant first. */
  function BigEndian(a: byte, b: byte, c: byte, d: byte): int {
    a as int * 0x100_0000 + b as int * 0x1_0000 + c as int * 0x100 + d as int
  }

  lemma NumberIs(data: Bytes)
    requires |data| == 4
    ensures Number(data) == BigEndian(data[0], data[1], data[2], data[3])
  {
    var three := data[..3];
    var two := three[..2];
    var one := two[..1];
    assert one[..0] == [];
    assert Number(one) == data[0] as int;
    assert Number(two) == data[0] as int * 256 + data[1] as int;
    assert Number(three) == Number(two) * 256 + data[2] as int;
  }

  /** Big-endian two's complement, byte by byte. */
  lemma IntLayout(data: Bytes)
    requires |data| == 4
    ensures var u := BigEndian(data[0], data[1], data[2], data[3]);
      UnpackInt(data) == if data[0] < 0x80 then u else u - 0x1_0000_0000
  {
    NumberIs(data);
  }

  lemma PackedLayout(i: int)
    requires InInt32(i)
    ensures var data := PackInt(i);
      && |data| == 4
      && BigEndian(data[0], data[1], data[2], data[3]) == if i < 0 then i + 0x1_0000_0000 else i
  {
    TopFour();
    NumberDigits(if i < 0 then i + 0x1_0000_0000 else i, 4);
    NumberIs(PackInt(i));
  }

  // ----- encoding

  /** What one argument adds under its tag. */
  function EncodeArg(tag: char, arg: Arg): Result<Bytes, Error> {
    if tag == 's' then
      if !arg.S? then Err(WrongArgument) else if !IsAscii(arg.text) then Err(NotAscii) else Ok(EncodeString(arg.text))
    else if tag == 'f' then
      if arg.F? && |arg.bits| == 4 then Ok(arg.bits) else Err(WrongArgument)
    else if tag == 'i' then
      if !arg.I? then Err(WrongArgument) else if !InInt32(arg.value) then Err(IntRange) else Ok(PackInt(arg.value))
    else if tag == 'b' then
      if !arg.B? then Err(WrongArgument)
      else if !InInt32(|arg.blob|) then Err(IntRange)
      else Ok(PackInt(|arg.blob|) + Pad(arg.blob))
    else Err(UnsupportedTag(tag))
  }

  /** Tags and arguments pair off as far as the shorter goes. */
  function EncodeArgs(typetag: string, args: seq<Arg>): Result<Bytes, Error> {
    if typetag == [] || args == [] then Ok([])
    else
      var first := EncodeArg(typetag[0], args[0]);
      if first.Err? then first
      else
        var rest := EncodeArgs(typetag[1..], args[1..]);
        if rest.Err? then rest else Ok(first.value + rest.value)
  }

  /** A message, or with no tag the bare address. */
  function Encoding(address: string, typetag: string, args: seq<Arg>): Result<Bytes, Error> {
    if !IsAscii(address) || !IsAscii(typetag) then Err(NotAscii)
    else
      var rest := EncodeArgs(typetag, args);
      if rest.Err? then rest else Ok(EncodeString(address) + EncodeString("," + typetag) + rest.value)
  }

  /** What each tag takes, and what it adds. */
  lemma ArgEncodes(tag: char, arg: Arg)
    ensures EncodeArg(tag, arg).Ok? <==>
      || (tag == 's' && arg.S? && forall k :: 0 <= k < |arg.text| ==> arg.text[k] as int < 128)
      || (tag == 'f' && arg.F? && |arg.bits| == 4)
      || (tag == 'i' && arg.I? && -0x8000_0000 <= arg.value < 0x8000_0000)
      || (tag == 'b' && arg.B? && |arg.blob| < 0x8000_0000)
    ensures EncodeArg(tag, arg).Ok? ==>
      EncodeArg(tag, arg).value ==
        match arg
        case S(text) => EncodeString(text)
        case F(bits) => bits
        case I(value) => PackInt(value)
        case B(blob) => PackInt(|blob|) + Pad(blob)
    ensures tag != 's' && tag != 'f' && tag != 'i' && tag != 'b' ==> EncodeArg(tag, arg) == Err(UnsupportedTag(tag))
  {
  }

  /** The first pair of a tag and an argument that do not go together. */
  ghost predicate FailsFirst(typetag: string, args: seq<Arg>, k: nat) {
    && k < |typetag| && k < |args| && EncodeArg(typetag[k], args[k]).Err?
    && forall j :: 0 <= j < k ==> EncodeArg(typetag[j], args[j]).Ok?
  }

  /** Encoding the arguments fails exactly where the first of them fails, with its error. */
  lemma {:induction false} ArgsFailFirst(typetag: string, args: seq<Arg>)
    ensures EncodeArgs(typetag, args).Err? <==> exists k: nat :: FailsFirst(typetag, args, k)
    ensures forall k: nat :: FailsFirst(typetag, args, k) ==>
              EncodeArgs(typetag, args) == EncodeArg(typetag[k], args[k])
    decreases |typetag|
  {
    if typetag != [] && args != [] {
      var tags, rest := typetag[1..], args[1..];
      ArgsFailFirst(tags, rest);
      forall k: nat
        ensures k > 0 && FailsFirst(typetag, args, k) ==>
                  FailsFirst(tags, rest, k - 1) && tags[k - 1] == typetag[k] && rest[k - 1] == args[k]
      {
        if k > 0 && FailsFirst(typetag, args, k) { FailsLater(typetag, args, k); }
      }
      if EncodeArg(typetag[0], args[0]).Err? {
        assert FailsFirst(typetag, args, 0);
      } else if k: nat :| FailsFirst(tags, rest, k) {
        FailsSooner(typetag, args, k);
      }
    }
  }

  lemma FailsLater(typetag: string, args: seq<Arg>, k: nat)
    requires k > 0 && FailsFirst(typetag, args, k)
    ensures FailsFirst(typetag[1..], args[1..], k - 1)
  {
    forall j | 0 <= j < k - 1
      ensures EncodeArg(typetag[1..][j], args[1..][j]).Ok?
    {
      assert EncodeArg(typetag[j + 1], args[j + 1]).Ok?;
    }
  }

  lemma FailsSooner(typetag: string, args: seq<Arg>, k: nat)
    requires typetag != [] && args != [] && EncodeArg(typetag[0], args[0]).Ok?
    requires FailsFirst(typetag[1..], args[1..], k)
    ensures FailsFirst(typetag, args, k + 1)
  {
    forall j | 0 <= j < k + 1
      ensures EncodeArg(typetag[j], args[j]).Ok?
    {
      if j > 0 { assert EncodeArg(typetag[1..][j - 1], args[1..][j - 1]).Ok?; }
    }
  }

  function Bare(address: string): Result<Bytes, Error> {
    if IsAscii(address) then Ok(EncodeString(address)) else Err(NotAscii)
  }

  function Then(done: Bytes, rest: Result<Bytes, Error>): Result<Bytes, Error> {
    if rest.Err? then rest else Ok(done + rest.value)
  }

  method Encode(address: string, typetag: string, args: seq<Arg>) returns (r: Result<Bytes, Error>)
    ensures r == Encoding(address, typetag, args)
  {
    if !IsAscii(address) || !IsAscii(typetag) {
      return Err(NotAscii);
    }
    var message := EncodeString(address);
    message := message + EncodeString("," + typetag);
    var n := if |typetag| < |args| then |typetag| else |args|;
    ghost var whole := Then(message, EncodeArgs(typetag, args));
    assert typetag[0..] == typetag && args[0..] == args;
    for i := 0 to n
      invariant whole == Then(message, EncodeArgs(typetag[i..], args[i..]))
    {
      var field := EncodeArg(typetag[i], args[i]);
      NextField(message, typetag[i..], args[i..]);
      assert typetag[i..][1..] == typetag[i + 1..] && args[i..][1..] == args[i + 1..];
      if field.Err? {
        return field;
      }
      message := message + field.value;
    }
    assert message + [] == message;
    return Ok(message);
  }

  lemma NextField(done: Bytes, typetag: string, args: seq<Arg>)
    requires typetag != [] && args != []
    ensures var field := EncodeArg(typetag[0], args[0]);
      Then(done, EncodeArgs(typetag, args)) ==
        if field.Err? then field else Then(done + field.value, EncodeArgs(typetag[1..], args[1..]))
  {
    var field, rest := EncodeArg(typetag[0], args[0]), EncodeArgs(typetag[1..], args[1..]);
    if field.Ok? && rest.Ok? {
      assert done + (field.value + rest.value) == done + field.value + rest.value;
    }
  }

  // ----- decoding

  /** The language's slice: bounds count from the end when negative, and are clipped. */
  function Clip(data: Bytes, i: int): (n: nat)
    ensures n <= |data|
  {
    if i < 0 then (if i + |data| < 0 then 0 else i + |data|) else if i > |data| then |data| else i
  }

  function Slice(data: Bytes, i: int, j: int): Bytes {
    if Clip(data, i) < Clip(data, j) then data[Clip(data, i)..Clip(data, j)] else []
  }

  /** The first zero byte at or after `i`, or the length. */
  function FindNul(data: Bytes, i: nat): (n: nat)
    requires i <= |data|
    ensures i <= n <= |data|
    decreases |data| - i
  {
    if i == |data| || data[i] == 0 then i else FindNul(data, i + 1)
  }

  lemma {:induction false} FindNulIs(data: Bytes, i: nat)
    requires i <= |data|
    ensures var n := FindNul(data, i);
      (n < |data| ==> data[n] == 0) && forall k :: i <= k < n ==> data[k] != 0
    decreases |data| - i
  {
    if i < |data| && data[i] != 0 {
      FindNulIs(data, i + 1);
    }
  }

  function LetterOf(b: byte): char {
    if b as int < 128 then b as int as char else 0xFFFD as char
  }

  function TextOf(data: Bytes): string {
    if data == [] then [] else [LetterOf(data[0])] + TextOf(data[1..])
  }

  /** Byte by byte; what is not ASCII reads as the replacement character. */
  lemma {:induction false} TextOfIs(data: Bytes)
    ensures |TextOf(data)| == |data|
    ensures forall k :: 0 <= k < |data| ==>
              TextOf(data)[k] as int == if data[k] < 128 then data[k] as int else 0xFFFD
  {
    if data != [] {
      TextOfIs(data[1..]);
    }
  }

  lemma {:induction false} TextOfAscii(text: string)
    requires IsAscii(text)
    ensures TextOf(Ascii(text)) == text
  {
    if text != [] {
      assert text == [text[0]] + text[1..];
      assert Ascii(text)[1..] == Ascii(text[1..]);
      TextOfAscii(text[1..]);
    }
  }

  lemma {:induction false} TextOfNulFree(data: Bytes)
    requires forall k :: 0 <= k < |data| ==> data[k] != 0
    ensures NoNul(TextOf(data))
  {
    if data != [] {
      TextOfNulFree(data[1..]);
    }
  }

  function ReadString(data: Bytes, offset: int): Result<(string, int), Error> {
    if offset > |data| then Err(NoTerminator)
    else
      var end := FindNul(data, Clip(data, offset));
      if end == |data| then Err(NoTerminator)
      else Ok((TextOf(Slice(data, offset, end)), offset + ((end - offset) / 4 + 1) * 4))
  }

  function ReadArg(data: Bytes, offset: int, tag: char): Result<(Arg, int), Error> {
    var four := Slice(data, offset, offset + 4);
    if tag == 's' then
      var text := ReadString(data, offset);
      if text.Err? then Err(text.error) else Ok((S(text.value.0), text.value.1))
    else if tag == 'f' then
      if |four| != 4 then Err(Truncated) else Ok((F(four), offset + 4))
    else if tag == 'i' then
      if |four| != 4 then Err(Truncated) else Ok((I(UnpackInt(four)), offset + 4))
    else if tag == 'b' then
      if |four| != 4 then Err(Truncated)
      else
        var n, start := UnpackInt(four), offset + 4;
        Ok((B(Slice(data, start, start + n)), start + (n + 3) / 4 * 4))
    else Err(UnsupportedTag(tag))
  }

  function ReadArgs(data: Bytes, offset: int, typetag: string): Result<seq<Arg>, Error>
    decreases |typetag|
  {
    if typetag == [] then Ok([])
    else
      var first := ReadArg(data, offset, typetag[0]);
      if first.Err? then Err(first.error)
      else
        var rest := ReadArgs(data, first.value.1, typetag[1..]);
        if rest.Err? then rest else Ok([first.value.0] + rest.value)
  }

  function Decoding(data: Bytes): Result<Message, Error> {
    var address := ReadString(data, 0);
    if address.Err? then Err(address.error)
    else if address.value.1 >= |data| then Ok(Message(address.value.0, "", []))
    else if Slice(data, address.value.1, address.value.1 + 1) != [',' as int as byte] then Err(NoTypeTag)
    else
      var tags := ReadString(data, address.value.1);
      if tags.Err? then Err(tags.error)
      else
        var typetag := if tags.value.0 == [] then [] else tags.value.0[1..];
        var args := ReadArgs(data, tags.value.1, typetag);
        if args.Err? then Err(args.error) else Ok(Message(address.value.0, typetag, args.value))
  }

  /** How a datagram starts: an address up to its zero byte, padded; then nothing, or a comma. */
  lemma DecodingStarts(data: Bytes, n: nat)
    requires n <= |data| && (n < |data| ==> data[n] == 0) && forall k :: 0 <= k < n ==> data[k] != 0
    ensures var next := (n / 4 + 1) * 4;
      && (n == |data| ==> Decoding(data) == Err(NoTerminator))
      && (n < |data| <= next ==> Decoding(data) == Ok(Message(TextOf(data[..n]), "", [])))
      && (next < |data| && data[next] as int != ',' as int ==> Decoding(data) == Err(NoTypeTag))
  {
    FindNulIs(data, 0);
    assert FindNul(data, 0) == n;
    assert Slice(data, 0, n) == data[..n];
    var next := (n / 4 + 1) * 4;
    if next < |data| {
      assert Slice(data, next, next + 1) == [data[next]];
    }
  }

  /** How an argument is read inside the datagram. */
  lemma ArgReads(data: Bytes, offset: nat, tag: char)
    requires offset <= |data|
    ensures tag == 'f' ==> (ReadArg(data, offset, tag) ==
      if offset + 4 <= |data| then Ok((F(data[offset..offset + 4]), offset + 4)) else Err(Truncated))
    ensures tag == 'i' ==> (ReadArg(data, offset, tag) ==
      if offset + 4 <= |data| then Ok((I(UnpackInt(data[offset..offset + 4])), offset + 4)) else Err(Truncated))
    ensures tag == 'b' && offset + 4 > |data| ==> ReadArg(data, offset, tag) == Err(Truncated)
    ensures tag == 'b' && offset + 4 <= |data| ==> (
      var n, start := UnpackInt(data[offset..offset + 4]), offset + 4;
      var blob := B(if n < 0 then [] else if start + n <= |data| then data[start..start + n] else data[start..]);
      n >= 0 ==> ReadArg(data, offset, tag) == Ok((blob, start + (n + 3) / 4 * 4)))
    ensures tag != 's' && tag != 'f' && tag != 'i' && tag != 'b' ==>
              ReadArg(data, offset, tag) == Err(UnsupportedTag(tag))
  {
    if offset + 4 <= |data| {
      assert Slice(data, offset, offset + 4) == data[offset..offset + 4];
      var n, start := UnpackInt(data[offset..offset + 4]), offset + 4;
      if n >= 0 {
        assert Slice(data, start, start + n) == if start + n <= |data| then data[start..start + n] else data[start..];
      }
    }
  }

  /** A string runs up to its zero byte, and the next field starts after its padding. */
  lemma StringReads(data: Bytes, offset: nat, n: nat)
    requires offset <= n <= |data| && (n < |data| ==> data[n] == 0) && forall k :: offset <= k < n ==> data[k] != 0
    ensures ReadArg(data, offset, 's') ==
              if n == |data| then Err(NoTerminator)
              else Ok((S(TextOf(data[offset..n])), offset + ((n - offset) / 4 + 1) * 4))
  {
    FindNulIs(data, offset);
    assert FindNul(data, offset) == n;
    if n < |data| { assert Slice(data, offset, n) == data[offset..n]; }
  }

  function After(done: seq<Arg>, rest: Result<seq<Arg>, Error>): Result<seq<Arg>, Error> {
    if rest.Err? then rest else Ok(done + rest.value)
  }

  method Decode(data: Bytes) returns (r: Result<Message, Error>)
    ensures r == Decoding(data)
  {
    var address := ReadString(data, 0);
    if address.Err? {
      return Err(address.error);
    }
    var offset := address.value.1;
    if offset >= |data| {
      return Ok(Message(address.value.0, "", []));
    }
    if Slice(data, offset, offset + 1) != [',' as int as byte] {
      return Err(NoTypeTag);
    }
    var tags := ReadString(data, offset);
    if tags.Err? {
      return Err(tags.error);
    }
    var typetag := if tags.value.0 == [] then [] else tags.value.0[1..];
    var args := DecodeArgs(data, tags.value.1, typetag);
    r := if args.Err? then Err(args.error) else Ok(Message(address.value.0, typetag, args.value));
  }

  method DecodeArgs(data: Bytes, start: int, typetag: string) returns (r: Result<seq<Arg>, Error>)
    ensures r == ReadArgs(data, start, typetag)
  {
    var offset, args := start, [];
    assert typetag[0..] == typetag && forall rest: seq<Arg> {:trigger args + rest} :: args + rest == rest;
    for i := 0 to |typetag|
      invariant ReadArgs(data, start, typetag) == After(args, ReadArgs(data, offset, typetag[i..]))
    {
      var next := ReadArg(data, offset, typetag[i]);
      NextArg(args, data, offset, typetag[i..]);
      assert typetag[i..][1..] == typetag[i + 1..];
      if next.Err? {
        return Err(next.error);
      }
      args := args + [next.value.0];
      offset := next.value.1;
    }
    assert args + [] == args;
    return Ok(args);
  }

  lemma NextArg(done: seq<Arg>, data: Bytes, offset: int, typetag: string)
    requires typetag != []
    ensures var next := ReadArg(data, offset, typetag[0]);
      After(done, ReadArgs(data, offset, typetag)) ==
        if next.Err? then Err(next.error) else After(done + [next.value.0], ReadArgs(data, next.value.1, typetag[1..]))
  {
    var next := ReadArg(data, offset, typetag[0]);
    if next.Ok? {
      var rest := ReadArgs(data, next.value.1, typetag[1..]);
      if rest.Ok? {
        assert done + ([next.value.0] + rest.value) == done + [next.value.0] + rest.value;
      }
    }
  }

  // ----- the round trip

  predicate Plain(text: string) {
    IsAscii(text) && NoNul(text)
  }

  lemma FieldLength(data: Bytes)
    ensures |Pad(data)| % 4 == 0 && |Pad(data)| == (|data| + 3) / 4 * 4
  {
  }

  /** A string field reads back as the text, and leaves the offset after its padding. */
  lemma ReadBack(before: Bytes, text: string, after: Bytes)
    requires Plain(text)
    ensures ReadString(before + EncodeString(text) + after, |before|) == Ok((text, |before| + |EncodeString(text)|))
  {
    var field, data := EncodeString(text), before + EncodeString(text) + after;
    var end := |before| + |text|;
    assert forall k :: 0 <= k < |field| ==> data[|before| + k] == field[k];
    assert field[|text|] == 0;
    forall k | 0 <= k < |text|
      ensures text[k] as int < 128 && field[k] == text[k] as int as byte && field[k] != 0
    {
    }
    NulAt(data, |before|, end);
    assert Slice(data, |before|, end) == Ascii(text);
    TextOfAscii(text);
  }

  lemma NulAt(data: Bytes, i: nat, end: nat)
    requires i <= end < |data| && data[end] == 0
    requires forall k :: i <= k < end ==> data[k] != 0
    ensures FindNul(data, i) == end
  {
    FindNulIs(data, i);
  }

  lemma SliceBack(before: Bytes, middle: Bytes, after: Bytes)
    ensures Slice(before + middle + after, |before|, |before| + |middle|) == middle
  {
  }

  lemma BlobFields(before: Bytes, size: Bytes, blob: Bytes, padding: Bytes, after: Bytes)
    ensures var data := before + (size + (blob + padding)) + after;
      && Slice(data, |before|, |before| + |size|) == size
      && Slice(data, |before| + |size|, |before| + |size| + |blob|) == blob
  {
    var data := before + (size + (blob + padding)) + after;
    assert data == before + size + (blob + padding + after);
    SliceBack(before, size, blob + padding + after);
    assert data == (before + size) + blob + (padding + after);
    SliceBack(before + size, blob, padding + after);
  }

  lemma BlobAt(data: Bytes, offset: nat, blob: Bytes)
    requires InInt32(|blob|)
    requires Slice(data, offset, offset + 4) == PackInt(|blob|)
    requires Slice(data, offset + 4, offset + 4 + |blob|) == blob
    ensures ReadArg(data, offset, 'b') == Ok((B(blob), offset + 4 + |Pad(blob)|))
  {
    UnpackPack(|blob|);
    FieldLength(blob);
  }

  lemma BlobReadsBack(before: Bytes, blob: Bytes, after: Bytes)
    requires InInt32(|blob|)
    ensures var field := PackInt(|blob|) + Pad(blob);
      ReadArg(before + field + after, |before|, 'b') == Ok((B(blob), |before| + |field|))
  {
    var size := PackInt(|blob|);
    BlobFields(before, size, blob, Zeros(Fill(|blob|)), after);
    BlobAt(before + (size + Pad(blob)) + after, |before|, blob);
  }

  lemma ArgReadsBack(before: Bytes, tag: char, arg: Arg, field: Bytes, after: Bytes)
    requires EncodeArg(tag, arg) == Ok(field) && (arg.S? ==> NoNul(arg.text))
    ensures ReadArg(before + field + after, |before|, tag) == Ok((arg, |before| + |field|))
  {
    if tag == 's' {
      ReadBack(before, arg.text, after);
    } else if tag == 'b' {
      BlobReadsBack(before, arg.blob, after);
    } else {
      SliceBack(before, field, after);
      if tag == 'i' { UnpackPack(arg.value); }
    }
  }

  /** No string argument holds a zero byte. */
  predicate NulFree(args: seq<Arg>) {
    args == [] || ((args[0].S? ==> NoNul(args[0].text)) && NulFree(args[1..]))
  }

  lemma {:induction false} ArgsReadBack(before: Bytes, typetag: string, args: seq<Arg>, fields: Bytes)
    requires |typetag| == |args| && EncodeArgs(typetag, args) == Ok(fields) && NulFree(args)
    ensures ReadArgs(before + fields, |before|, typetag) == Ok(args)
    decreases |typetag|
  {
    if typetag == [] {
      assert args == [];
    } else {
      var field, rest := FirstField(typetag, args, fields);
      ArgReadsBack(before, typetag[0], args[0], field, rest);
      ArgsReadBack(before + field, typetag[1..], args[1..], rest);
      Reassociate(before, field, rest);
      Prepend(before + field + rest, |before|, |before| + |field|, typetag, args);
    }
  }

  lemma FirstField(typetag: string, args: seq<Arg>, fields: Bytes)
    returns (field: Bytes, rest: Bytes)
    requires typetag != [] && args != [] && EncodeArgs(typetag, args) == Ok(fields)
    ensures EncodeArg(typetag[0], args[0]) == Ok(field) && EncodeArgs(typetag[1..], args[1..]) == Ok(rest)
    ensures fields == field + rest
  {
    field := EncodeArg(typetag[0], args[0]).value;
    rest := EncodeArgs(typetag[1..], args[1..]).value;
  }

  lemma Reassociate(before: Bytes, field: Bytes, rest: Bytes)
    ensures before + (field + rest) == before + field + rest
  {
  }

  lemma Prepend(data: Bytes, offset: int, next: int, typetag: string, args: seq<Arg>)
    requires typetag != [] && args != []
    requires ReadArg(data, offset, typetag[0]) == Ok((args[0], next))
    requires ReadArgs(data, next, typetag[1..]) == Ok(args[1..])
    ensures ReadArgs(data, offset, typetag) == Ok(args)
  {
    assert [args[0]] + args[1..] == args;
  }

  lemma {:induction false} TagsAreTags(typetag: string, args: seq<Arg>)
    requires |typetag| == |args| && EncodeArgs(typetag, args).Ok?
    ensures Plain(typetag)
    decreases |typetag|
  {
    if typetag != [] {
      TagsAreTags(typetag[1..], args[1..]);
      assert typetag == [typetag[0]] + typetag[1..];
    }
  }

  /** Every encoding fills whole groups of four bytes. */
  lemma EncodingIsAligned(address: string, typetag: string, args: seq<Arg>)
    requires Encoding(address, typetag, args).Ok?
    ensures |Encoding(address, typetag, args).value| % 4 == 0
  {
    FieldLength(Ascii(address) + [0]);
    FieldLength(Ascii("," + typetag) + [0]);
    ArgsAligned(typetag, args);
    Joined(EncodeString(address), EncodeString("," + typetag));
    Joined(EncodeString(address) + EncodeString("," + typetag), EncodeArgs(typetag, args).value);
  }

  lemma Joined(a: Bytes, b: Bytes)
    requires |a| % 4 == 0 && |b| % 4 == 0
    ensures |a + b| % 4 == 0
  {
  }

  lemma {:induction false} ArgsAligned(typetag: string, args: seq<Arg>)
    requires EncodeArgs(typetag, args).Ok?
    ensures |EncodeArgs(typetag, args).value| % 4 == 0
    decreases |typetag|
  {
    if typetag != [] && args != [] {
      ArgAligned(typetag[0], args[0]);
      ArgsAligned(typetag[1..], args[1..]);
      Joined(EncodeArg(typetag[0], args[0]).value, EncodeArgs(typetag[1..], args[1..]).value);
    }
  }

  lemma ArgAligned(tag: char, arg: Arg)
    requires EncodeArg(tag, arg).Ok?
    ensures |EncodeArg(tag, arg).value| % 4 == 0
  {
    if tag == 's' {
      FieldLength(Ascii(arg.text) + [0]);
    } else if tag == 'b' {
      FieldLength(arg.blob);
    }
  }

  /** Every encoding whose tags and arguments match and whose strings hold no zero byte decodes to the same
      message. */
  lemma DecodeEncode(address: string, typetag: string, args: seq<Arg>)
    requires Encoding(address, typetag, args).Ok? && |typetag| == |args| && NoNul(address) && NulFree(args)
    ensures var data := Encoding(address, typetag, args).value;
      Decoding(data) == Ok(Message(address, typetag, args))
  {
    var head, tags := EncodeString(address), EncodeString("," + typetag);
    var fields := EncodeArgs(typetag, args).value;
    TagsAreTags(typetag, args);
    HeaderReads(address, typetag, fields);
    DecodeFields(head, tags, fields, address, typetag, args);
  }

  /** Any two fields that read as the address and the tags, and then the arguments' fields. */
  lemma DecodeFields(head: Bytes, tags: Bytes, fields: Bytes, address: string, typetag: string,
                                        args: seq<Arg>)
    requires |typetag| == |args| && EncodeArgs(typetag, args) == Ok(fields) && NulFree(args)
    requires HeaderAt(head + tags + fields, |head|, |head + tags|, address, typetag)
    ensures Decoding(head + tags + fields) == Ok(Message(address, typetag, args))
  {
    ArgsReadBack(head + tags, typetag, args, fields);
    Assemble(head + tags + fields, address, typetag, args, |head|, |head + tags|);
  }

  /** The address reads up to `second`, the tags from there up to `third`. */
  predicate HeaderAt(data: Bytes, second: nat, third: nat, address: string, typetag: string) {
    && second < |data|
    && ReadString(data, 0) == Ok((address, second))
    && Slice(data, second, second + 1) == [',' as int as byte]
    && ReadString(data, second) == Ok(("," + typetag, third))
  }

  lemma HeaderReads(address: string, typetag: string, fields: Bytes)
    requires Plain(address) && Plain(typetag)
    ensures var head, tags := EncodeString(address), EncodeString("," + typetag);
      HeaderAt(head + tags + fields, |head|, |head + tags|, address, typetag)
  {
    CommaPlain(typetag);
    TwoStrings(address, "," + typetag, fields);
    CommaAt(EncodeString(address), typetag, fields);
  }

  lemma CommaPlain(typetag: string)
    requires Plain(typetag)
    ensures Plain("," + typetag)
  {
  }

  lemma TwoStrings(first: string, second: string, rest: Bytes)
    requires Plain(first) && Plain(second)
    ensures var a, b := EncodeString(first), EncodeString(second);
      && ReadString(a + b + rest, 0) == Ok((first, |a|))
      && ReadString(a + b + rest, |a|) == Ok((second, |a| + |b|))
  {
    var a, b := EncodeString(first), EncodeString(second);
    ReadBack([], first, b + rest);
    assert [] + a + (b + rest) == a + b + rest;
    ReadBack(a, second, rest);
  }

  lemma CommaAt(head: Bytes, typetag: string, rest: Bytes)
    requires IsAscii("," + typetag)
    ensures |head| < |head + EncodeString("," + typetag) + rest|
    ensures Slice(head + EncodeString("," + typetag) + rest, |head|, |head| + 1) == [',' as int as byte]
  {
    var tags := EncodeString("," + typetag);
    assert tags[0] == ',' as int as byte;
    assert (head + tags + rest)[|head|] == tags[0];
  }

  lemma Assemble(data: Bytes, address: string, typetag: string, args: seq<Arg>, second: nat, third: nat)
    requires HeaderAt(data, second, third, address, typetag)
    requires ReadArgs(data, third, typetag) == Ok(args)
    ensures Decoding(data) == Ok(Message(address, typetag, args))
  {
    assert ("," + typetag)[1..] == typetag;
  }

  /** The bare request form reads back as its address alone. */
  lemma BareReadsBack(address: string)
    requires Plain(address)
    ensures Bare(address).Ok? && Decoding(Bare(address).value) == Ok(Message(address, "", []))
  {
    ReadBack([], address, []);
    assert [] + EncodeString(address) + [] == EncodeString(address);
  }

  // ----- what decoding can yield

  lemma {:induction false} ReadArgsLength(data: Bytes, offset: int, typetag: string)
    requires ReadArgs(data, offset, typetag).Ok?
    ensures |ReadArgs(data, offset, typetag).value| == |typetag|
    ensures NulFree(ReadArgs(data, offset, typetag).value)
    decreases |typetag|
  {
    if typetag != [] {
      var first := ReadArg(data, offset, typetag[0]).value;
      ReadArgsLength(data, first.1, typetag[1..]);
      if typetag[0] == 's' {
        ReadIsNulFree(data, offset);
      }
    }
  }

  lemma ReadIsNulFree(data: Bytes, offset: int)
    requires ReadString(data, offset).Ok?
    ensures NoNul(ReadString(data, offset).value.0)
  {
    var start := Clip(data, offset);
    var end := FindNul(data, start);
    var text := Slice(data, offset, end);
    FindNulIs(data, start);
    assert forall i :: 0 <= i < |text| ==> text[i] == data[start + i];
    TextOfNulFree(text);
  }

  /** The round trip holds exactly when the tags and arguments match in number and no string holds a zero
      byte: the encoder checks neither. */
  lemma RoundTripIff(address: string, typetag: string, args: seq<Arg>)
    requires Encoding(address, typetag, args).Ok?
    ensures Decoding(Encoding(address, typetag, args).value) == Ok(Message(address, typetag, args)) <==>
            |typetag| == |args| && NoNul(address) && NulFree(args)
  {
    var data := Encoding(address, typetag, args).value;
    if |typetag| == |args| && NoNul(address) && NulFree(args) {
      DecodeEncode(address, typetag, args);
    }
    if Decoding(data) == Ok(Message(address, typetag, args)) {
      ReadIsNulFree(data, 0);
      var offset := ReadString(data, 0).value.1;
      if offset < |data| {
        ReadArgsLength(data, ReadString(data, offset).value.1, typetag);
      }
    }
  }

  // ----- the value of a per-leaf reply

  /** The argument is of the kind its tag names. */
  predicate Fits(tag: char, arg: Arg) {
    match tag
    case 's' => arg.S?
    case 'f' => arg.F? && |arg.bits| == 4
    case 'i' => arg.I? && InInt32(arg.value)
    case 'b' => arg.B?
    case _ => false
  }

  predicate AllFit(typetag: string, args: seq<Arg>) {
    |typetag| == |args| && (typetag == [] || (Fits(typetag[0], args[0]) && AllFit(typetag[1..], args[1..])))
  }

  datatype LeafValue = Native(bits: Bytes) | Index(value: int) | Text(text: string)

  /** Which argument carries the value depends on the tags: the native float, the display text read as an
      integer, or the text itself. `parse` is the language's integer parser. */
  function ValueOf(message: Message, parse: string -> Result<int, Error>): Result<(LeafValue, string), Error> {
    var args := message.args;
    if message.typetag == "sff" && |args| == 3 && args[0].S? && args[2].F? then
      Ok((Native(args[2].bits), args[0].text))
    else if message.typetag == "sfi" && |args| == 3 && args[0].S? then
      var index := parse(args[0].text);
      if index.Err? then Err(index.error) else Ok((Index(index.value), args[0].text))
    else if message.typetag == "s" && |args| == 1 && args[0].S? then
      Ok((Text(args[0].text), args[0].text))
    else Err(NotALeafReply)
  }

  lemma {:induction false} ReadArgsFit(data: Bytes, offset: int, typetag: string)
    requires ReadArgs(data, offset, typetag).Ok?
    ensures AllFit(typetag, ReadArgs(data, offset, typetag).value)
    decreases |typetag|
  {
    if typetag != [] {
      var first := ReadArg(data, offset, typetag[0]).value;
      ReadArgsFit(data, first.1, typetag[1..]);
      assert Fits(typetag[0], first.0);
    }
  }

  /** A decoded message carries one argument of the right kind for each tag. */
  lemma DecodedArgsFit(data: Bytes)
    requires Decoding(data).Ok?
    ensures AllFit(Decoding(data).value.typetag, Decoding(data).value.args)
  {
    var offset := ReadString(data, 0).value.1;
    if offset < |data| {
      var tags := ReadString(data, offset).value;
      ReadArgsFit(data, tags.1, if tags.0 == [] then [] else tags.0[1..]);
    }
  }

  lemma FitThree(tags: string, args: seq<Arg>)
    requires AllFit(tags, args)
    ensures |tags| == 3 ==> |args| == 3 && Fits(tags[0], args[0]) && Fits(tags[2], args[2])
    ensures |tags| == 1 ==> |args| == 1 && Fits(tags[0], args[0])
  {
    if |tags| == 3 {
      assert AllFit(tags[1..], args[1..]) && AllFit(tags[1..][1..], args[1..][1..]);
    }
  }

  /** Of what the decoder can yield, exactly the three reply shapes give a value, the second only when its display text
      is an integer: unpacking the arguments never fails. The value is the native float, the parsed display text, or
      the text, and the display is the first argument. */
  lemma ValueIs(data: Bytes, parse: string -> Result<int, Error>)
    requires Decoding(data).Ok?
    ensures var m := Decoding(data).value;
      && (m.typetag == "sff" ==>
            |m.args| == 3 && m.args[0].S? && m.args[2].F?
            && ValueOf(m, parse) == Ok((Native(m.args[2].bits), m.args[0].text)))
      && (m.typetag == "sfi" ==>
            |m.args| == 3 && m.args[0].S?
            && ValueOf(m, parse) == match parse(m.args[0].text)
                                    case Ok(index) => Ok((Index(index), m.args[0].text))
                                    case Err(error) => Err(error))
      && (m.typetag == "s" ==>
            |m.args| == 1 && m.args[0].S? && ValueOf(m, parse) == Ok((Text(m.args[0].text), m.args[0].text)))
      && (m.typetag != "sff" && m.typetag != "sfi" && m.typetag != "s" ==> ValueOf(m, parse) == Err(NotALeafReply))
  {
    DecodedArgsFit(data);
    FitThree(Decoding(data).value.typetag, Decoding(data).value.args);
  }

  /** A reply sent over the wire gives the value the console holds, whichever shape it has. */
  lemma ValueCrossesTheWire(address: string, display: string, middle: Bytes, native: Arg,
                            parse: string -> Result<int, Error>)
    requires Plain(address) && Plain(display) && |middle| == 4
    requires Fits('f', native) || Fits('i', native)
    ensures var typetag := if native.F? then "sff" else "sfi";
      var sent := Encoding(address, typetag, [S(display), F(middle), native]);
      sent.Ok? && var received := Decoding(sent.value);
      received.Ok? && ValueOf(received.value, parse) ==
        if native.F? then Ok((Native(native.bits), display))
        else if parse(display).Err? then Err(parse(display).error)
        else Ok((Index(parse(display).value), display))
  {
    var typetag := if native.F? then "sff" else "sfi";
    var args := [S(display), F(middle), native];
    ThreeArgs(typetag, args);
    DecodeEncode(address, typetag, args);
  }

  /** And so does a text. */
  lemma TextCrossesTheWire(address: string, text: string, parse: string -> Result<int, Error>)
    requires Plain(address) && Plain(text)
    ensures var sent := Encoding(address, "s", [S(text)]);
      && sent.Ok? && Decoding(sent.value) == Ok(Message(address, "s", [S(text)]))
      && ValueOf(Decoding(sent.value).value, parse) == Ok((Text(text), text))
  {
    assert "s"[1..] == [] && [S(text)][1..] == [];
    assert EncodeArgs("s", [S(text)]).Ok? && NulFree([S(text)]);
    DecodeEncode(address, "s", [S(text)]);
  }

  lemma ThreeArgs(typetag: string, args: seq<Arg>)
    requires |typetag| == |args| == 3
    requires forall k :: 0 <= k < 3 ==> EncodeArg(typetag[k], args[k]).Ok?
    requires forall k :: 0 <= k < 3 ==> args[k].S? ==> NoNul(args[k].text)
    ensures EncodeArgs(typetag, args).Ok? && NulFree(args)
  {
    var tags1, args1 := typetag[1..], args[1..];
    var tags2, args2 := tags1[1..], args1[1..];
    assert tags2[0] == typetag[2] && args2[0] == args[2];
    assert tags2[1..] == [] && args2[1..] == [];
    assert EncodeArgs(tags2, args2).Ok? && NulFree(args2);
    assert EncodeArgs(tags1, args1).Ok? && NulFree(args1);
  }
}
