/**
 The cpio "newc" archive: written by tools/mkinitrd.py, read by src/kern/initramfs.c.
 */
module Cpio {

  import opened Basics

  const HEADER := 110           // CPIO_HDR_LEN
  const WORD := 0x1_0000_0000   // fields are 32 bits wide

  /** "070701" */
  function Magic(): Bytes { [48, 55, 48, 55, 48, 49] }

  /** "TRAILER!!!" */
  function Trailer(): Bytes { [84, 82, 65, 73, 76, 69, 82, 33, 33, 33] }

  /** One archive member: what the packer puts in and the importer takes out. */
  datatype Record = Record(mode: nat, name: Bytes, data: Bytes)

  // ---------------------------------------------------------------- hexadecimal fields

  function Digit(d: nat): Byte
    requires d < 16
  {
    if d < 10 then 48 + d else 87 + d
  }

  /** A byte that is no hexadecimal digit counts as 0. */
  function DigitValue(c: Byte): nat
  {
    if 48 <= c <= 57 then c - 48 else if 97 <= c <= 102 then c - 87 else if 65 <= c <= 70 then c - 55 else 0
  }

  /** The low n digits of v. */
  function Hex(v: nat, n: nat): (s: Bytes)
    ensures |s| == n
  {
    if n == 0 then [] else Hex(v / 16, n - 1) + [Digit(v % 16)]
  }

  /** hexfield: eight digits of the low 32 bits. */
  function HexField(v: nat): Bytes { Hex(v % WORD, 8) }

  /** The number the digits stand for, in 32 bits. */
  function Number(s: Bytes): nat
    decreases |s|
  {
    if s == [] then 0 else (Number(s[..|s| - 1]) * 16 + DigitValue(s[|s| - 1])) % WORD
  }

  /** cpio_hex: shifting a 32-bit word left by four bits and adding each digit. */
  method CpioHex(p: Bytes) returns (v: nat)
    ensures v == Number(p) && v < WORD
  {
    v := 0;
    for i := 0 to |p|
      invariant v == Number(p[..i]) && v < WORD
    {
      assert p[..i + 1][..i] == p[..i];
      ShiftIn(v, DigitValue(p[i]));
      v := (v * 16) % WORD;
      v := v + DigitValue(p[i]);
    }
    assert p[..|p|] == p;
  }

  /** The shifted word ends in a zero digit, so adding a digit does not carry. */
  lemma ShiftIn(v: nat, d: nat)
    requires v < WORD && d < 16
    ensures (v * 16) % WORD + d == (v * 16 + d) % WORD
  {
  }

  function Pow16(n: nat): nat { if n == 0 then 1 else 16 * Pow16(n - 1) }

  lemma {:induction false} HexNumber(v: nat, n: nat)
    requires v < Pow16(n) && n <= 8
    ensures Number(Hex(v, n)) == v
    decreases n
  {
    if n > 0 {
      assert Pow16(n) <= WORD by { PowBound(n); }
      HexNumber(v / 16, n - 1);
      var s := Hex(v, n);
      assert s[..n - 1] == Hex(v / 16, n - 1) && s[n - 1] == Digit(v % 16);
      DigitBack(v % 16);
      LastHexDigit(v);
    }
  }

  lemma DigitBack(d: nat)
    requires d < 16
    ensures DigitValue(Digit(d)) == d
  {
  }

  lemma LastHexDigit(v: nat)
    ensures v < WORD ==> (v / 16 * 16 + v % 16) % WORD == v
  {
  }

  lemma {:induction false} PowBound(n: nat)
    requires n <= 8
    ensures Pow16(n) <= Pow16(8) == WORD
    decreases 8 - n
  {
    assert Pow16(8) == WORD by {
      assert Pow16(4) == 65536;
      assert Pow16(8) == 16 * 16 * 16 * 16 * Pow16(4);
    }
    if n < 8 { PowBound(n + 1); }
  }

  /** Reading a field back gives the number modulo 2^32, so exactly the numbers below 2^32 survive. */
  lemma FieldRoundTrip(v: nat)
    ensures Number(HexField(v)) == v % WORD
    ensures Number(HexField(v)) == v <==> v < WORD
  {
    PowBound(8);
    HexNumber(v % WORD, 8);
  }

  // ---------------------------------------------------------------- names as text

  /** A byte that continues a character begun before it. */
  predicate Continues(b: Byte) { 0x80 <= b < 0xC0 }

  /** The number of characters in a name of UTF-8 bytes. */
  function Chars(name: Bytes): (n: nat)
    ensures n <= |name|
    decreases |name|
  {
    if name == [] then 0 else (if Continues(name[0]) then 0 else 1) + Chars(name[1..])
  }

  /** The UTF-8 bytes of a code point. */
  function Utf8(c: nat): Bytes
    requires c < 0x11_0000
  {
    if c < 0x80 then [c]
    else if c < 0x800 then [0xC0 + c / 64, 0x80 + c % 64]
    else if c < 0x1_0000 then [0xE0 + c / 4096, 0x80 + c / 64 % 64, 0x80 + c % 64]
    else [0xF0 + c / 262144, 0x80 + c / 4096 % 64, 0x80 + c / 64 % 64, 0x80 + c % 64]
  }

  /** str.encode() */
  function Encode(text: seq<nat>): Bytes
    requires forall i | 0 <= i < |text| :: text[i] < 0x11_0000
  {
    if text == [] then [] else Utf8(text[0]) + Encode(text[1..])
  }

  lemma {:induction false} CharsJoin(a: Bytes, b: Bytes)
    ensures Chars(a + b) == Chars(a) + Chars(b)
    decreases |a|
  {
    if a == [] {
      assert a + b == b;
    } else {
      assert (a + b)[1..] == a[1..] + b;
      CharsJoin(a[1..], b);
    }
  }

  lemma CharsOne(c: nat)
    requires c < 0x11_0000
    ensures Chars(Utf8(c)) == 1
  {
    var s := Utf8(c);
    assert !Continues(s[0]) && forall i | 1 <= i < |s| :: Continues(s[i]);
    Continuation(s[1..]);
  }

  lemma {:induction false} Continuation(s: Bytes)
    requires forall i | 0 <= i < |s| :: Continues(s[i])
    ensures Chars(s) == 0
    decreases |s|
  {
    if s != [] { Continuation(s[1..]); }
  }

  /** len() of a string is the number of characters in its encoding. */
  lemma {:induction false} CharsOfText(text: seq<nat>)
    requires forall i | 0 <= i < |text| :: text[i] < 0x11_0000
    ensures Chars(Encode(text)) == |text|
    decreases |text|
  {
    if text != [] {
      CharsOne(text[0]);
      CharsOfText(text[1..]);
      CharsJoin(Utf8(text[0]), Encode(text[1..]));
    }
  }

  /** The importer, which steps over as many bytes as the packer counted characters, finds the end of the name. */
  predicate NameFits(name: Bytes)
  {
    Align4(HEADER + Chars(name) + 1) == Align4(HEADER + |name| + 1)
  }

  /** Names in ASCII always fit. */
  lemma {:induction false} AsciiFits(name: Bytes)
    requires forall i | 0 <= i < |name| :: name[i] < 128
    ensures Chars(name) == |name| && NameFits(name)
    decreases |name|
  {
    if name != [] { AsciiFits(name[1..]); }
  }

  // ---------------------------------------------------------------- packing

  /** cpio_align4 */
  function Align4(n: nat): (r: nat)
    ensures n <= r < n + 4 && r % 4 == 0
  {
    (n + 3) / 4 * 4
  }

  function Zeros(n: nat): (s: Bytes)
    ensures |s| == n && forall i | 0 <= i < n :: s[i] == 0
  {
    seq(n, _ => 0)
  }

  /** align4: zeros up to a multiple of four. */
  function Pad(s: Bytes): (r: Bytes)
    ensures |r| == Align4(|s|) && s <= r
  {
    s + Zeros(Align4(|s|) - |s|)
  }

  /** The fields before and after those the importer reads: inode, then owner to time, then devices, then checksum. */
  function Header(ino: nat, mode: nat, nlink: nat, filesize: nat, rdev: (nat, nat), namesize: nat): Bytes
  {
    Magic() + HexField(ino) + HexField(mode)
    + (HexField(0) + HexField(0) + HexField(nlink) + HexField(0))
    + HexField(filesize)
    + (HexField(0) + HexField(0) + HexField(rdev.0) + HexField(rdev.1))
    + HexField(namesize) + HexField(0)
  }

  lemma HeaderFields(ino: nat, mode: nat, nlink: nat, filesize: nat, rdev: (nat, nat), namesize: nat)
    ensures
      var h := Header(ino, mode, nlink, filesize, rdev, namesize);
      && |h| == HEADER && h[..6] == Magic()
      && h[14..22] == HexField(mode) && h[54..62] == HexField(filesize) && h[94..102] == HexField(namesize)
  {
  }

  function IsDir(mode: nat): bool { mode / 4096 % 16 == 4 }

  function IsLink(mode: nat): bool { mode / 4096 % 16 == 10 }

  /** The file size that `add` writes: none for a symbolic link, although its target follows. */
  function SizeField(r: Record): nat { if IsDir(r.mode) || IsLink(r.mode) then 0 else |r.data| }

  /** `add` for a directory, a regular file or a symbolic link.  The name is counted in characters. */
  function PackOne(ino: nat, r: Record): Bytes
  {
    Pad(Header(ino, r.mode, if IsDir(r.mode) then 2 else 1, SizeField(r), (0, 0), Chars(r.name) + 1) + r.name + [0])
    + (if r.data == [] then [] else Pad(r.data))
  }

  function PackTrailer(ino: nat): Bytes
  {
    Pad(Header(ino, 0, 1, 0, (0, 0), 11) + Trailer() + [0])
  }

  /** The archive of the records, the first one numbered ino + 1. */
  function Pack(ino: nat, rs: seq<Record>): Bytes
    decreases |rs|
  {
    if rs == [] then PackTrailer(ino + 1) else PackOne(ino + 1, rs[0]) + Pack(ino + 1, rs[1..])
  }

  // ---------------------------------------------------------------- reading

  datatype Parsed = Parsed(records: seq<Record>, ok: bool)

  /** Where the next record begins, by the sizes in this header. */
  function DataAt(b: Bytes): nat
    requires |b| >= HEADER
  {
    Align4(HEADER + Number(b[94..102]))
  }

  function NextAt(b: Bytes): (n: nat)
    requires |b| >= HEADER
    ensures n >= HEADER && n >= DataAt(b) + Number(b[54..62])
  {
    Align4(DataAt(b) + Number(b[54..62]))
  }

  /** The records an importer meets in b, and whether it reaches the trailer or the end without error. */
  function Parse(b: Bytes): Parsed
    decreases |b|
  {
    if |b| < HEADER then Parsed([], true)
    else if b[..6] != Magic() || NextAt(b) > |b| then Parsed([], false)
    else if CString(b[HEADER..]) == Trailer() then Parsed([], true)
    else
      var rest := Parse(b[NextAt(b)..]);
      Parsed([RecordAt(b)] + rest.records, rest.ok)
  }

  function RecordAt(b: Bytes): Record
    requires |b| >= HEADER && NextAt(b) <= |b|
  {
    Record(Number(b[14..22]), CString(b[HEADER..]), b[DataAt(b)..DataAt(b) + Number(b[54..62])])
  }

  /** Parse, case by case. */
  lemma ParseNext(b: Bytes)
    requires |b| >= HEADER && b[..6] == Magic() && NextAt(b) <= |b|
    ensures
      var rest := Parse(b[NextAt(b)..]);
      Parse(b) == if RecordAt(b).name == Trailer() then Parsed([], true) else Parsed([RecordAt(b)] + rest.records, rest.ok)
  {
  }

  lemma ParseBad(b: Bytes)
    requires |b| >= HEADER && (b[..6] != Magic() || NextAt(b) > |b|)
    ensures Parse(b) == Parsed([], false)
  {
  }

  /** What the header has room for. */
  predicate Fieldable(r: Record) { 0 !in r.name && |r.name| + 1 < WORD && |r.data| < WORD && r.mode < WORD }

  /** The sizes written in the header lead to the end of the record. */
  predicate Aligned(r: Record) { NameFits(r.name) && SizeField(r) == |r.data| }

  predicate Packable(r: Record) { Fieldable(r) && Aligned(r) && r.name != Trailer() }

  /** The next member is looked for at the end of this one exactly when the name fits and a directory or link
      has no data; otherwise it is looked for too early. */
  lemma NextExact(ino: nat, r: Record, rest: Bytes)
    requires Fieldable(r)
    ensures
      var b := PackOne(ino, r) + rest;
      && |b| >= HEADER && b[..6] == Magic() && CString(b[HEADER..]) == r.name
      && NextAt(b) <= |PackOne(ino, r)|
      && (NextAt(b) == |PackOne(ino, r)| <==> Aligned(r))
      && NextAt(b) == Align4(HEADER + Chars(r.name) + 1) + Align4(SizeField(r))
      && |PackOne(ino, r)| == Align4(HEADER + |r.name| + 1) + Align4(|r.data|)
  {
    hide Number, CString, Align4, Magic, Header, IsDir, IsLink, Chars, Pad;
    var h := PackedHeader(ino, r);
    Layout(h, r, rest);
    NextSum(Chars(r.name), |r.name|, SizeField(r), |r.data|);
  }

  /** A packed record by its header. */
  lemma Layout(h: Bytes, r: Record, rest: Bytes)
    requires |h| == HEADER && 0 !in r.name
    ensures
      var one := Pad(h + r.name + [0]) + (if r.data == [] then [] else Pad(r.data));
      var b := one + rest;
      && |one| == Align4(HEADER + |r.name| + 1) + Align4(|r.data|) && |b| >= HEADER
      && b[..6] == h[..6] && b[54..62] == h[54..62] && b[94..102] == h[94..102] && CString(b[HEADER..]) == r.name
  {
    hide CString, Align4, Zeros;
    var named := h + r.name + [0];
    var pad, tail := Zeros(Align4(|named|) - |named|), if r.data == [] then [] else Pad(r.data);
    Front(h, r.name, pad, tail, rest);
    assert Pad(named) + tail + rest == h + r.name + [0] + pad + tail + rest;
    CStringIs(r.name, pad + tail + rest);
    TailFront(r.data, rest);
  }

  lemma NextSum(chars: nat, bytes: nat, size: nat, len: nat)
    requires chars <= bytes && (size == 0 || size == len)
    ensures Align4(Align4(HEADER + chars + 1) + size) == Align4(HEADER + chars + 1) + Align4(size)
    ensures Align4(HEADER + chars + 1) <= Align4(HEADER + bytes + 1) && Align4(size) <= Align4(len)
    ensures Align4(size) == Align4(len) <==> size == len
  {
    AlignSum(HEADER + chars + 1, size);
    AlignOrder(HEADER + chars + 1, HEADER + bytes + 1);
    AlignOrder(0, len);
  }

  /** The header of a record, field by field. */
  lemma PackedHeader(ino: nat, r: Record) returns (h: Bytes)
    requires Fieldable(r)
    ensures h == Header(ino, r.mode, if IsDir(r.mode) then 2 else 1, SizeField(r), (0, 0), Chars(r.name) + 1)
    ensures |h| == HEADER && h[..6] == Magic()
    ensures Number(h[14..22]) == r.mode && Number(h[54..62]) == SizeField(r) && Number(h[94..102]) == Chars(r.name) + 1
  {
    hide Number, Magic, IsDir, Chars, Header, HexField;
    var nlink := if IsDir(r.mode) then 2 else 1;
    h := Header(ino, r.mode, nlink, SizeField(r), (0, 0), Chars(r.name) + 1);
    HeaderFields(ino, r.mode, nlink, SizeField(r), (0, 0), Chars(r.name) + 1);
    FieldRoundTrip(r.mode);
    FieldRoundTrip(SizeField(r));
    FieldRoundTrip(Chars(r.name) + 1);
  }

  lemma AlignOrder(a: nat, b: nat)
    ensures a <= b ==> Align4(a) <= Align4(b)
    ensures Align4(0) == 0 && (b > 0 ==> Align4(b) > 0)
  {
  }

  /** The record at the front of an archive is the one packed there. */
  lemma ParseOne(ino: nat, r: Record, rest: Bytes)
    requires Packable(r)
    ensures
      var b := PackOne(ino, r) + rest;
      && |b| >= HEADER && b[..6] == Magic() && NextAt(b) == |PackOne(ino, r)| <= |b|
      && RecordAt(b) == r && b[NextAt(b)..] == rest
  {
    hide Pad, Number, NextAt, RecordAt, Magic, IsDir, IsLink, Chars, Header, Align4;
    var h := PackedHeader(ino, r);
    ParseLayout(h, r, rest);
  }

  /** The same from the header's fields alone. */
  lemma ParseLayout(h: Bytes, r: Record, rest: Bytes)
    requires |h| == HEADER && h[..6] == Magic() && 0 !in r.name
    requires Number(h[14..22]) == r.mode && Number(h[54..62]) == |r.data|
    requires Align4(HEADER + Number(h[94..102])) == Align4(HEADER + |r.name| + 1)
    ensures
      var one := Pad(h + r.name + [0]) + (if r.data == [] then [] else Pad(r.data));
      var b := one + rest;
      && |b| >= HEADER && b[..6] == Magic() && NextAt(b) == |one| <= |b|
      && RecordAt(b) == r && b[NextAt(b)..] == rest
  {
    hide Number, CString, Align4, Magic, Zeros;
    var named := h + r.name + [0];
    var pad, tail := Zeros(Align4(|named|) - |named|), if r.data == [] then [] else Pad(r.data);
    var b := Pad(named) + tail + rest;
    Front(h, r.name, pad, tail, rest);
    assert b == h + r.name + [0] + pad + tail + rest;
    AlignSum(|named|, |r.data|);
    CStringIs(r.name, pad + tail + rest);
    TailFront(r.data, rest);
  }

  // ---------------------------------------------------------------- members that derail the importer

  /** No magic number where the next member should begin. */
  lemma Derails(b: Bytes)
    requires |b| >= HEADER && b[..6] == Magic() && NextAt(b) + HEADER <= |b| && RecordAt(b).name != Trailer()
    requires b[NextAt(b)..][..6] != Magic()
    ensures Parse(b) == Parsed([RecordAt(b)], false)
  {
    hide Parse, NextAt, RecordAt, Magic, Trailer;
    ParseNext(b);
    ParseBad(b[NextAt(b)..]);
  }

  /** A name whose character count is one alignment step short of its byte count. */
  predicate ShortName(r: Record)
  {
    SizeField(r) == |r.data| && Align4(HEADER + Chars(r.name) + 1) + 4 == Align4(HEADER + |r.name| + 1)
  }

  /** A symbolic link whose target does not begin like a header. */
  predicate PlainLink(r: Record) { IsLink(r.mode) && NameFits(r.name) && r.data != [] && !(Magic() <= r.data) }

  predicate Derailing(r: Record) { Fieldable(r) && r.name != Trailer() && (ShortName(r) || PlainLink(r)) }

  lemma ShortNameFails(ino: nat, r: Record, rest: Bytes)
    requires Fieldable(r) && r.name != Trailer() && ShortName(r) && |rest| >= HEADER && rest[..6] == Magic()
    ensures |Parse(PackOne(ino, r) + rest).records| == 1 && !Parse(PackOne(ino, r) + rest).ok
  {
    hide Parse, NextAt, Trailer, Chars, Align4, PackOne, Number;
    NextExact(ino, r, rest);
    var b := PackOne(ino, r) + rest;
    var s := b[NextAt(b)..];
    assert s[5] == rest[1] && s[..6][5] == s[5];
    Derails(b);
  }

  lemma LinkFails(ino: nat, r: Record, rest: Bytes)
    requires Fieldable(r) && r.name != Trailer() && PlainLink(r) && |rest| >= HEADER && rest[..6] == Magic()
    ensures |Parse(PackOne(ino, r) + rest).records| == 1 && !Parse(PackOne(ino, r) + rest).ok
  {
    hide Parse, NextAt, Trailer, Chars, Align4, Number, PackOne, Magic, RecordAt, Pad;
    NextExact(ino, r, rest);
    LinkTail(ino, r, rest);
    NotMagic(r.data, rest);
    AlignOrder(0, |r.data|);
    NameOf(PackOne(ino, r) + rest);
    Derails(PackOne(ino, r) + rest);
  }

  /** Every archive begins with a header. */
  lemma PackStarts(ino: nat, rs: seq<Record>)
    ensures |Pack(ino, rs)| >= HEADER && Pack(ino, rs)[..6] == Magic()
  {
    hide Magic, Chars, Align4, IsDir, IsLink, Trailer, HexField;
    if rs == [] {
      HeaderFields(ino + 1, 0, 1, 0, (0, 0), 11);
    } else {
      var r := rs[0];
      HeaderFields(ino + 1, r.mode, if IsDir(r.mode) then 2 else 1, SizeField(r), (0, 0), Chars(r.name) + 1);
    }
  }

  /** An archive with such a member in it: the members before it are read, then the import stops with an error. */
  lemma {:induction false} DerailedArchive(ino: nat, rs: seq<Record>, k: nat)
    requires k < |rs| && (forall i | 0 <= i < k :: Packable(rs[i])) && Derailing(rs[k])
    ensures
      var p := Parse(Pack(ino, rs));
      !p.ok && |p.records| == k + 1 && p.records[..k] == rs[..k]
    decreases k
  {
    hide Parse, PackOne, NextAt, RecordAt, Trailer, Magic, Fieldable, ShortName, PlainLink, Aligned;
    var rest := Pack(ino + 1, rs[1..]);
    if k == 0 {
      PackStarts(ino + 1, rs[1..]);
      if ShortName(rs[0]) { ShortNameFails(ino + 1, rs[0], rest); } else { LinkFails(ino + 1, rs[0], rest); }
    } else {
      ParseOne(ino + 1, rs[0], rest);
      ParseNext(PackOne(ino + 1, rs[0]) + rest);
      DerailedArchive(ino + 1, rs[1..], k - 1);
      var p, q := Parse(Pack(ino, rs)).records, Parse(rest).records;
      assert p[..k] == [rs[0]] + q[..k - 1] && rs[..k] == [rs[0]] + rs[1..][..k - 1];
    }
  }

  lemma NameOf(b: Bytes)
    requires |b| >= HEADER && NextAt(b) <= |b|
    ensures RecordAt(b).name == CString(b[HEADER..])
  {
  }

  /** The target follows the padded name. */
  lemma LinkTail(ino: nat, r: Record, rest: Bytes)
    requires r.data != [] && |PackOne(ino, r)| == Align4(HEADER + |r.name| + 1) + Align4(|r.data|)
    ensures (PackOne(ino, r) + rest)[Align4(HEADER + |r.name| + 1)..] == Pad(r.data) + rest
  {
    hide Align4, Header, Chars, Pad;
    assert exists p :: PackOne(ino, r) == p + Pad(r.data) by {
      assert PackOne(ino, r) == Pad(Header(ino, r.mode, if IsDir(r.mode) then 2 else 1, SizeField(r), (0, 0), Chars(r.name) + 1) + r.name + [0]) + Pad(r.data);
    }
    var p :| PackOne(ino, r) == p + Pad(r.data);
    assert p + Pad(r.data) + rest == p + (Pad(r.data) + rest);
  }

  lemma NotMagic(data: Bytes, rest: Bytes)
    requires data != [] && !(Magic() <= data) && |rest| >= HEADER && rest[..6] == Magic()
    ensures (Pad(data) + rest)[..6] != Magic()
  {
    var s := Pad(data) + rest;
    if |data| >= 6 {
      assert s[..6] == data[..6];
    } else if |data| == 5 {
      assert s[..6][5] == 0;
    } else {
      assert |Pad(data)| == 4 && s[..6][5] == rest[..6][1];
    }
  }

  /** Where the parts of a record lie. */
  lemma Front(h: Bytes, name: Bytes, pad: Bytes, tail: Bytes, rest: Bytes)
    requires |h| == HEADER
    ensures
      var b, at := h + name + [0] + pad + tail + rest, HEADER + |name| + 1 + |pad|;
      && b[..6] == h[..6] && b[14..22] == h[14..22] && b[54..62] == h[54..62] && b[94..102] == h[94..102]
      && b[HEADER..] == name + [0] + (pad + tail + rest)
      && b[at + |tail|..] == rest && forall n | 0 <= n <= |tail| :: b[at..at + n] == tail[..n]
  {
  }

  lemma TailFront(data: Bytes, rest: Bytes)
    ensures
      var tail := if data == [] then [] else Pad(data);
      |tail| == Align4(|data|) && |data| <= |tail| && tail[..|data|] == data
  {
  }

  /** Padding the parts one by one pads the whole. */
  lemma AlignSum(a: nat, n: nat)
    ensures Align4(Align4(a) + n) == Align4(a) + Align4(n) && Align4(0) == 0
  {
  }

  /** Reading an archive gives back the records packed into it, in order, and stops at the trailer. */
  lemma {:induction false} ParsePack(ino: nat, rs: seq<Record>)
    requires forall i | 0 <= i < |rs| :: Packable(rs[i])
    ensures Parse(Pack(ino, rs)) == Parsed(rs, true)
    decreases |rs|
  {
    hide Parse, PackOne, PackTrailer, NextAt, RecordAt, Trailer, Magic;
    if rs == [] {
      TrailerStops(ino + 1);
    } else {
      var rest := Pack(ino + 1, rs[1..]);
      ParseOne(ino + 1, rs[0], rest);
      ParseNext(PackOne(ino + 1, rs[0]) + rest);
      ParsePack(ino + 1, rs[1..]);
      assert [rs[0]] + rs[1..] == rs;
    }
  }

  lemma TrailerName()
    ensures |Trailer()| == 10 && 0 !in Trailer()
  {
  }

  lemma TrailerStops(ino: nat)
    ensures Parse(PackTrailer(ino)) == Parsed([], true)
  {
    hide Align4, Parse, NextAt, RecordAt, Trailer, Magic, Number, Zeros;
    var r := Record(0, Trailer(), []);
    var h := Header(ino, 0, 1, 0, (0, 0), 11);
    HeaderFields(ino, 0, 1, 0, (0, 0), 11);
    FieldRoundTrip(0);
    FieldRoundTrip(11);
    TrailerName();
    ParseLayout(h, r, []);
    assert PackTrailer(ino) == Pad(h + r.name + [0]) + [] + [];
    ParseNext(PackTrailer(ino));
  }
}
