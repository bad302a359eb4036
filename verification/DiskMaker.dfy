/** The label tool: its block buffer and partition table, updated in place. */
module DiskMaker {
  import opened Words
  import opened Label

  // ---------------------------------------------------------------------
  // The buffer seen as words

  lemma LittleOf(w: nat)
    requires w < 0x1_0000_0000
    ensures Little(w % 0x100, (w / 0x100) % 0x100, (w / 0x1_0000) % 0x100, w / 0x100_0000) == w
  {
    var x, y := w / 0x100, w / 0x1_0000;
    DivModUnique(x, 0x100, y, x % 0x100);
    DivModUnique(y, 0x100, w / 0x100_0000, y % 0x100);
  }

  lemma Str4UnStr4(w: word)
    ensures Str4(UnStr4(w)) == w
  {
    LittleOf(w);
    hide Little;
  }

  lemma {:induction false} PackFlatten(words: seq<word>)
    ensures |Flatten(words)| == 4 * |words| && PackBytes(Flatten(words)) == words
    decreases |words|
  {
    hide Str4, UnStr4;
    if words != [] {
      PackFlatten(words[1..]);
      Str4UnStr4(words[0]);
      assert Flatten(words)[..4] == UnStr4(words[0]) && Flatten(words)[4..] == Flatten(words[1..]);
    }
  }

  lemma PackCons(bytes: text)
    requires |bytes| % 4 == 0 && |bytes| > 0
    ensures PackBytes(bytes) == [Str4(bytes[..4])] + PackBytes(bytes[4..])
  {
    hide Str4, UnStr4;
  }

  lemma {:induction false} PackAppend(a: text, b: text)
    requires |a| % 4 == 0 && |b| % 4 == 0
    ensures PackBytes(a + b) == PackBytes(a) + PackBytes(b)
    decreases |a|
  {
    hide Str4, PackBytes;
    if a == [] {
      assert a + b == b;
    } else {
      PackCons(a);
      PackCons(a + b);
      assert (a + b)[..4] == a[..4] && (a + b)[4..] == a[4..] + b;
      PackAppend(a[4..], b);
    }
  }

  lemma PackOne(s: text)
    requires |s| == 4
    ensures PackBytes(s) == [Str4(s)]
  {
    hide Str4, UnStr4;
    assert s[..4] == s;
  }

  lemma PackThree(a: text, b: text, c: text)
    requires |a| % 4 == 0 && |b| % 4 == 0 && |c| % 4 == 0
    ensures PackBytes(a + b + c) == PackBytes(a) + PackBytes(b) + PackBytes(c)
  {
    hide *;
    PackAppend(a, b);
    PackAppend(a + b, c);
  }

  lemma Cut(s: text, i: nat, j: nat)
    requires i <= j <= |s|
    ensures s[..i] + s[i..j] + s[j..] == s
  {
    hide *;
  }

  /** Replacing n aligned words' bytes replaces those n words. */
  lemma PackSwap(head: text, gone: text, put: text, tail: text, at: nat, n: nat)
    requires |head| == 4 * at && |gone| == |put| == 4 * n && |tail| % 4 == 0
    ensures var b := PackBytes(head + gone + tail);
            |b| >= at + n && PackBytes(head + put + tail) == b[..at] + PackBytes(put) + b[at + n..]
  {
    hide *;
    PackThree(head, put, tail);
    PackThree(head, gone, tail);
    Ends(PackBytes(head), PackBytes(gone), PackBytes(tail));
  }

  lemma Ends(a: seq<word>, b: seq<word>, c: seq<word>)
    ensures (a + b + c)[..|a|] == a && (a + b + c)[|a| + |b|..] == c
  {
    hide *;
  }

  // ---------------------------------------------------------------------
  // Searching the table

  /** strcasecmp's folding. */
  function Fold(c: byte): byte { if 'A' as int <= c <= 'Z' as int then c + 32 else c }

  predicate SameName(a: text, b: text) {
    |a| == |b| && forall i :: 0 <= i < |a| ==> Fold(a[i]) == Fold(b[i])
  }

  predicate Letter(c: byte, first: char) { first as int <= c < first as int + 26 }

  /** Names are the same when they differ at most in the case of letters. */
  lemma CaseIgnored(a: text, b: text)
    ensures SameName(a, b) <==>
              && |a| == |b|
              && forall i :: 0 <= i < |a| ==>
                   a[i] == b[i] || (Letter(a[i], 'A') && b[i] == a[i] + 32) || (Letter(b[i], 'A') && a[i] == b[i] + 32)
  {
  }

  /** The first partition with that name, if any. */
  predicate FirstNamed(parts: seq<Part>, name: text, k: nat) {
    k < |parts| && SameName(name, parts[k].name) && forall i :: 0 <= i < k ==> !SameName(name, parts[i].name)
  }

  predicate NoneNamed(parts: seq<Part>, name: text) {
    forall i :: 0 <= i < |parts| ==> !SameName(name, parts[i].name)
  }

  lemma FirstIsUnique(parts: seq<Part>, name: text, j: nat)
    requires j <= |parts|
    requires if j < |parts| then FirstNamed(parts, name, j) else NoneNamed(parts, name)
    ensures j < |parts| ==> !NoneNamed(parts, name)
    ensures forall k: nat :: FirstNamed(parts, name, k) ==> k == j < |parts|
  {
    hide SameName;
  }

  /** A first block whose label, if it has one, can be laid out again. */
  ghost predicate CanRelabel(image: text) {
    && |image| == 1024 && Readable(PackBytes(image))
    && var read := ReadLabel(PackBytes(image));
       read.Some? ==> ValidPack(read.value)
  }

  /** What switching a partition does to the image's label. */
  ghost predicate Relabelled(before: text, after: text, name: text, code: int, change: (Pack, text) -> Pack)
    requires CanRelabel(before) && |after| == 1024
  {
    match ReadLabel(PackBytes(before))
    case None => code == -1 && after == before
    case Some(l) =>
      && (NoneNamed(l.parts, name) ==> code == -1 && after == before)
      && forall k: nat | FirstNamed(l.parts, name, k) ::
           && code == 0 && var m := change(l, l.parts[k].name);
           ValidPack(m) && PackBytes(after) == LabelWords(m)
  }

  // ---------------------------------------------------------------------
  // Laying a label out piece by piece

  function WithParts(l: Pack, count: nat, n: nat): (w: seq<word>)
    requires ValidPack(l) && n <= |l.parts| && count < 0x1_0000_0000
    ensures |w| == 256
  {
    Header(l) + Zeros(120) + [count, 7] + AllPartWords(l.parts[..n]) + Zeros(126 - 7 * n)
  }

  lemma NextPart(l: Pack, count: nat, n: nat)
    requires ValidPack(l) && n < |l.parts| && count < 0x1_0000_0000
    ensures ValidPart(l.parts[n])
    ensures var w := WithParts(l, count, n);
            w[..130 + 7 * n] + PartWords(l.parts[n]) + w[130 + 7 * n + 7..] == WithParts(l, count, n + 1)
  {
    assert l.parts[..n + 1][..n] == l.parts[..n];
    GrowParts(l, n);
    hide Header, PartWords, AllPartWords, Ascii;
    var w, one := WithParts(l, count, n), PartWords(l.parts[n]);
    var front := Header(l) + Zeros(120) + [count, 7] + AllPartWords(l.parts[..n]);
    assert w[..130 + 7 * n] == front;
    assert w[130 + 7 * n + 7..] == Zeros(126 - 7 * (n + 1));
  }

  lemma GrowParts(l: Pack, n: nat)
    requires ValidPack(l) && n < |l.parts|
    ensures AllPartWords(l.parts[..n + 1]) == AllPartWords(l.parts[..n]) + PartWords(l.parts[n])
  {
    hide PartWords;
    assert l.parts[..n + 1][..n] == l.parts[..n];
  }

  lemma PutTexts(l: Pack, w0: seq<word>, w1: seq<word>, w2: seq<word>, w3: seq<word>)
    requires ValidPack(l) && w0 == WithParts(l, |l.parts|, |l.parts|)
    requires w1 == w0[..8] + PackBytes(TextField(l.brand, 0)) + w0[16..]
    requires w2 == w1[..16] + PackBytes(TextField(l.description, SPACE)) + w1[24..]
    requires w3 == w2[..24] + PackBytes(TextField(l.comment, 0)) + w2[32..]
    ensures w3 == LabelWords(l)
  {
    hide Header, PackBytes, TextField, AllPartWords, Ascii, ValidPart, Str4;
    assert l.parts[..|l.parts|] == l.parts;
    var b, d := PackBytes(TextField(l.brand, 0)), PackBytes(TextField(l.description, SPACE));
    var c := PackBytes(TextField(l.comment, 0));
    var tail := [|l.parts|, 7] + AllPartWords(l.parts) + Zeros(126 - 7 * |l.parts|);
    assert w0 == Header(l) + Zeros(120) + tail;
    assert LabelWords(l) == Header(l) + (b + d + c + Zeros(96) + tail);
    PutFields(w0, w1, w2, w3, Header(l), b, d, c, tail);
  }

  lemma PutFields(w0: seq<word>, w1: seq<word>, w2: seq<word>, w3: seq<word>,
                  front: seq<word>, b: seq<word>, d: seq<word>, c: seq<word>, tail: seq<word>)
    requires |front| == |b| == |d| == |c| == 8
    requires w0 == front + Zeros(120) + tail
    requires w1 == w0[..8] + b + w0[16..] && w2 == w1[..16] + d + w1[24..] && w3 == w2[..24] + c + w2[32..]
    ensures w3 == front + (b + d + c + Zeros(96) + tail)
  {
    PutField(w0, front, b, 120, tail);
    PutField(w1, front + b, d, 112, tail);
    PutField(w2, front + b + d, c, 104, tail);
    assert front + b + d + c + Zeros(96) + tail == front + (b + d + c + Zeros(96) + tail);
  }

  /** A field of eight words put at the start of n zeros. */
  lemma PutField(w: seq<word>, front: seq<word>, field: seq<word>, n: nat, tail: seq<word>)
    requires w == front + Zeros(n) + tail && |field| == 8 <= n
    ensures w[..|front|] + field + w[|front| + 8..] == front + field + Zeros(n - 8) + tail
  {
    assert w[|front| + 8..] == Zeros(n - 8) + tail;
  }

  lemma ZeroWord(s: text)
    requires |s| == 4 && s[0] == 0 && s[1] == 0 && s[2] == 0 && s[3] == 0
    ensures Str4(s) == 0
  {
    hide UnStr4;
  }

  lemma {:induction false} AllZeros(bytes: text)
    requires |bytes| % 4 == 0 && forall k :: 0 <= k < |bytes| ==> bytes[k] == 0
    ensures PackBytes(bytes) == Zeros(|bytes| / 4)
    decreases |bytes|
  {
    hide Str4, UnStr4;
    if bytes != [] {
      AllZeros(bytes[4..]);
      ZeroWord(bytes[..4]);
    }
  }

  lemma TextFrom(bytes: text, at: nat)
    requires |bytes| % 4 == 0 && 4 * at <= |bytes|
    ensures TextAt(PackBytes(bytes), at) == CString(bytes[4 * at..])
  {
    hide PackBytes, CString, Flatten;
    PackAppend(bytes[..4 * at], bytes[4 * at..]);
    assert bytes == bytes[..4 * at] + bytes[4 * at..];
    assert PackBytes(bytes)[at..] == PackBytes(bytes[4 * at..]);
    FlattenPack(bytes[4 * at..], []);
    assert PackBytes(bytes[4 * at..]) + [] == PackBytes(bytes[4 * at..]);
    FlattenNone();
    assert bytes[4 * at..] + [] == bytes[4 * at..];
  }

  lemma FlattenNone()
    ensures Flatten([]) == []
  {
  }

  lemma FieldBytes(before: text, base: nat, s: text, pad: byte)
    requires |s| < 32 && base + 32 <= |before|
    ensures var filled := before[..base] + seq(32, k => pad) + before[base + 32..];
            filled[..base] + (s + [0]) + filled[base + |s| + 1..] == before[..base] + TextField(s, pad) + before[base + 32..]
  {
    var filled := before[..base] + seq(32, k => pad) + before[base + 32..];
    assert filled[..base] == before[..base];
    assert filled[base + |s| + 1..] == seq(31 - |s|, k => pad) + before[base + 32..];
  }

  /** Switching bands on a label as laid out changes word 7 alone, and switching the
      microcode word 6 alone. */
  lemma SwitchedWord(l: Pack, name: text, k: nat)
    requires ValidPack(l) && FirstNamed(l.parts, name, k)
    ensures var w, n := LabelWords(l), l.parts[k].name;
            && |n| == 4 && Readable(w) && ReadLabel(w) == Some(l)
            && LabelWords(l.(lod := n)) == w[7 := Str4(n)] && LabelWords(l.(mcr := n)) == w[6 := Str4(n)]
  {
    hide LabelWords, Readable, ReadLabel, Str4, Ascii;
    ReadAfterMake(l);
    assert ValidPart(l.parts[k]);
    BandIsWord7(l, l.parts[k].name);
  }

  lemma SevenPut(w: seq<word>, at: nat, s: seq<word>)
    requires |s| == 7 && at + 7 <= |w|
    ensures w[at := s[0]][at + 1 := s[1]][at + 2 := s[2]][at + 3 := s[3]][at + 4 := s[4]][at + 5 := s[5]][at + 6 := s[6]]
         == w[..at] + s + w[at + 7..]
  {
  }

  // ---------------------------------------------------------------------

  class Tool {
    const buffer: array<byte>        // 256 words
    const parts: array<Part>
    var partCount: nat
    var cyls: word
    var heads: word
    var blocksPerTrack: word
    var mcrName: text
    var lodName: text
    var brand: text
    var description: text
    var comment: text
    var image: text                  // the image file's first block

    ghost predicate Valid()
      reads this
    {
      buffer.Length == 1024 && parts.Length == MAX_PARTITIONS && partCount <= MAX_PARTITIONS && |image| == 1024
    }

    ghost function Words(): (w: seq<word>)
      requires buffer.Length == 1024
      reads buffer
      ensures |w| == 256
    {
      PackBytes(buffer[..])
    }

    /** What the globals describe. */
    ghost function Described(): Pack
      requires Valid()
      reads this, parts
    {
      Pack(cyls, heads, blocksPerTrack, mcrName, lodName, parts[..partCount], brand, description, comment)
    }

    constructor (image: text)
      requires |image| == 1024
      ensures Valid() && fresh(buffer) && fresh(parts) && this.image == image && partCount == 0
    {
      buffer := new byte[1024](i => 0);
      parts := new Part[MAX_PARTITIONS](i => Part([], 0, 0, []));
      partCount := 0;
      cyls, heads, blocksPerTrack := 0, 0, 0;
      mcrName, lodName, brand, description, comment := [], [], [], [], [];
      this.image := image;
    }

    /** One word stored. */
    method PutWord(i: nat, w: word)
      requires buffer.Length == 1024 && i < 256
      modifies buffer
      ensures Words() == old(Words())[i := w]
    {
      hide PackBytes, Str4;
      ghost var before := buffer[..];
      var s := UnStr4(w);
      hide UnStr4;
      buffer[4 * i] := s[0];
      buffer[4 * i + 1] := s[1];
      buffer[4 * i + 2] := s[2];
      buffer[4 * i + 3] := s[3];
      assert buffer[..] == before[..4 * i] + s + before[4 * i + 4..];
      Cut(before, 4 * i, 4 * i + 4);
      PackSwap(before[..4 * i], before[4 * i..4 * i + 4], s, before[4 * i + 4..], i, 1);
      PackOne(s);
      Str4UnStr4(w);
      assert old(Words()) == PackBytes(before);
      assert Words() == old(Words())[..i] + [w] + old(Words())[i + 1..];
    }

    /** memset over a text field. */
    method FillField(base: nat, pad: byte)
      requires buffer.Length == 1024 && base + 32 <= 1024
      modifies buffer
      ensures buffer[..] == old(buffer[..])[..base] + seq(32, k => pad) + old(buffer[..])[base + 32..]
    {
      for i := 0 to 32
        invariant forall k :: 0 <= k < 1024 ==> buffer[k] == if base <= k < base + i then pad else old(buffer[k])
      {
        buffer[base + i] := pad;
      }
    }

    /** memcpy into the buffer. */
    method CopyIn(base: nat, s: text)
      requires buffer.Length == 1024 && base + |s| <= 1024
      modifies buffer
      ensures buffer[..] == old(buffer[..])[..base] + s + old(buffer[..])[base + |s|..]
    {
      for i := 0 to |s|
        invariant forall k :: 0 <= k < 1024 ==> buffer[k] == if base <= k < base + i then s[k - base] else old(buffer[k])
      {
        buffer[base + i] := s[i];
      }
    }

    /** A text field: padded, then the string and its NUL over the padding. */
    method PutText(at: nat, s: text, pad: byte)
      requires buffer.Length == 1024 && at + 8 <= 256 && |s| < 32
      modifies buffer
      ensures Words() == old(Words())[..at] + PackBytes(TextField(s, pad)) + old(Words())[at + 8..]
    {
      hide PackBytes;
      ghost var before := buffer[..];
      FillField(4 * at, pad);
      CopyIn(4 * at, s + [0]);
      FieldBytes(before, 4 * at, s, pad);
      Cut(before, 4 * at, 4 * at + 32);
      PackSwap(before[..4 * at], before[4 * at..4 * at + 32], TextField(s, pad), before[4 * at + 32..], at, 8);
    }

    /** A partition entry. */
    method PutPart(at: nat, p: Part)
      requires buffer.Length == 1024 && at + 7 <= 256 && ValidPart(p)
      modifies buffer
      ensures Words() == old(Words())[..at] + PartWords(p) + old(Words())[at + 7..]
    {
      hide Words, Str4, Ascii;
      ghost var w := Words();
      PutWord(at, Str4(p.name));
      PutWord(at + 1, p.start);
      PutWord(at + 2, p.size);
      PutWord(at + 3, Str4(p.tag[0..4]));
      PutWord(at + 4, Str4(p.tag[4..8]));
      PutWord(at + 5, Str4(p.tag[8..12]));
      PutWord(at + 6, Str4(p.tag[12..16]));
      SevenPut(w, at, PartWords(p));
    }

    /** add_partition: refused when the table is full, the label cut or padded to
        sixteen. */
    method AddPartition(name: text, start: word, size: word, tag: text) returns (ok: bool)
      requires Valid()
      modifies this`partCount, parts
      ensures Valid() && ok == (old(partCount) < MAX_PARTITIONS)
      ensures parts[..partCount] == old(parts[..partCount]) + (if ok then [Part(name, start, size, PadTag(tag))] else [])
    {
      hide PadTag;
      ok := partCount < MAX_PARTITIONS;
      if ok {
        parts[partCount] := Part(name, start, size, PadTag(tag));
        partCount := partCount + 1;
      }
    }

    method Clear()
      requires buffer.Length == 1024
      modifies buffer
      ensures Words() == Zeros(256)
    {
      for i := 0 to 1024
        invariant forall k :: 0 <= k < i ==> buffer[k] == 0
      {
        buffer[i] := 0;
      }
      AllZeros(buffer[..]);
    }

    /** The words before the partition entries. */
    method PutHeader()
      requires Valid() && ValidPack(Described()) && Words() == Zeros(256)
      modifies buffer
      ensures Words() == WithParts(Described(), partCount, 0)
    {
      hide Words, Str4, Ascii;
      PutWord(0, Str4(LABL));
      PutWord(1, 1);
      PutWord(2, cyls);
      PutWord(3, heads);
      PutWord(4, blocksPerTrack);
      PutWord(5, Wrap(heads * blocksPerTrack));
      PutWord(6, Str4(mcrName));
      PutWord(7, Str4(lodName));
      PutWord(128, partCount);
      PutWord(129, 7);
      ghost var l := Described();
      assert l.parts[..0] == [];
      assert Words() == Header(l) + Zeros(120) + [partCount, 7] + [] + Zeros(126);
    }

    method PutParts()
      requires Valid() && ValidPack(Described()) && Words() == WithParts(Described(), partCount, 0)
      modifies buffer
      ensures Words() == WithParts(Described(), partCount, partCount)
    {
      hide Words, Str4, Ascii, WithParts, PartWords;
      var p := 130;
      ghost var l := Described();
      for i := 0 to partCount
        invariant p == 130 + 7 * i && Described() == l
        invariant Words() == WithParts(l, partCount, i)
      {
        assert parts[i] == l.parts[i];
        NextPart(l, partCount, i);
        PutPart(p, parts[i]);
        p := p + 7;
      }
    }

    method WriteBlock()
      requires Valid()
      modifies this`image
      ensures Valid() && image == buffer[..] && PackBytes(image) == Words()
    {
      hide PackBytes;
      image := buffer[..];
    }

    method ReadBlock()
      requires Valid()
      modifies buffer
      ensures buffer[..] == image && PackBytes(image) == Words()
    {
      hide PackBytes;
      for i := 0 to 1024
        invariant buffer[..i] == image[..i]
      {
        buffer[i] := image[i];
      }
      assert buffer[..] == buffer[..1024] && image == image[..1024];
    }

    /** make_labl: the label laid out in the buffer and written to the image. */
    method MakeLabl()
      requires Valid() && ValidPack(Described())
      modifies this`image, buffer
      ensures Valid() && PackBytes(image) == LabelWords(Described())
    {
      hide Words, Ascii, PackBytes, LabelWords, WithParts;
      ghost var l := Described();
      Clear();
      PutHeader();
      PutParts();
      ghost var w0 := Words();
      PutText(8, brand, 0);
      ghost var w1 := Words();
      PutText(16, description, SPACE);
      ghost var w2 := Words();
      PutText(24, comment, 0);
      PutTexts(l, w0, w1, w2, Words());
      WriteBlock();
    }

    method GetWord(i: nat) returns (w: word)
      requires buffer.Length == 1024 && i < 256
      ensures w == Words()[i]
    {
      hide Str4, PackBytes;
      w := Str4([buffer[4 * i], buffer[4 * i + 1], buffer[4 * i + 2], buffer[4 * i + 3]]);
      assert buffer[..][4 * i..4 * i + 4] == [buffer[4 * i], buffer[4 * i + 1], buffer[4 * i + 2], buffer[4 * i + 3]];
      PackAt(buffer[..], i);
    }

    /** strdup of the bytes from a word on. */
    method GetText(at: nat) returns (s: text)
      requires buffer.Length == 1024 && at < 256
      ensures s == TextAt(Words(), at)
    {
      hide PackBytes, CString, Flatten;
      s := CString(buffer[4 * at..]);
      TextFrom(buffer[..], at);
      assert buffer[..][4 * at..] == buffer[4 * at..];
    }

    method GetEntry(p: nat) returns (name: text, start: word, size: word, tag: text)
      requires buffer.Length == 1024 && p + 7 <= 256
      ensures PartAt(Words(), p) == Part(name, start, size, PadTag(tag))
    {
      hide Words, UnStr4, CString, PadTag;
      var n := GetWord(p);
      var a := GetWord(p + 3);
      var b := GetWord(p + 4);
      var c := GetWord(p + 5);
      var d := GetWord(p + 6);
      tag := UnStr4(a) + UnStr4(b) + UnStr4(c) + UnStr4(d);
      name := CString(UnStr4(n));
      start := GetWord(p + 1);
      size := GetWord(p + 2);
    }

    /** read_labl: the globals set from the image's label, or left alone when there is
        no version 1 label. */
    method ReadLabl() returns (ok: bool)
      requires Valid() && Readable(PackBytes(image))
      modifies this`partCount, this`cyls, this`heads, this`blocksPerTrack, this`mcrName, this`lodName
      modifies this`brand, this`description, this`comment, parts, buffer
      ensures Valid() && ok == ReadLabel(PackBytes(image)).Some?
      ensures ok ==> Described() == ReadLabel(PackBytes(image)).value
      ensures !ok ==> Described() == old(Described())
    {
      hide Words, Str4, UnStr4, CString, PackBytes, TextAt, PartAt, ReadParts;
      ReadBlock();
      ghost var words := Words();
      var magic := GetWord(0);
      var version := GetWord(1);
      if magic != Str4(LABL) || version != 1 {
        return false;
      }
      ReadHeader();
      var count := GetWord(128);
      var size := GetWord(129);
      ReadTable(count, size);
      ReadTexts();
      ok := true;
    }

    method ReadHeader()
      requires Valid()
      modifies this`cyls, this`heads, this`blocksPerTrack, this`mcrName, this`lodName
      ensures Valid() && cyls == Words()[2] && heads == Words()[3] && blocksPerTrack == Words()[4]
      ensures mcrName == CString(UnStr4(Words()[6])) && lodName == CString(UnStr4(Words()[7]))
    {
      hide Words, UnStr4, CString;
      cyls := GetWord(2);
      heads := GetWord(3);
      blocksPerTrack := GetWord(4);
      var mcr := GetWord(6);
      var lod := GetWord(7);
      mcrName := CString(UnStr4(mcr));
      lodName := CString(UnStr4(lod));
    }

    method ReadTexts()
      requires Valid()
      modifies this`brand, this`description, this`comment
      ensures Valid() && brand == TextAt(Words(), 8) && description == TextAt(Words(), 16)
      ensures comment == TextAt(Words(), 24)
    {
      hide Words, TextAt;
      brand := GetText(8);
      description := GetText(16);
      comment := GetText(24);
    }

    /** The partition table filled from the label's entries. */
    method ReadTable(count: word, size: word)
      requires Valid() && Readable(Words()) && count == Words()[128] && size == Words()[129]
      modifies this`partCount, parts
      ensures Valid() && parts[..partCount] == ReadParts(Words(), if count < MAX_PARTITIONS then count else MAX_PARTITIONS)
    {
      hide Words, PartAt, ReadParts, PadTag, EntryAt;
      EntryStep(size, 0);
      var p := 130;
      partCount := 0;
      ReadNone(Words());
      for i := 0 to count
        invariant Valid() && p == EntryAt(size, i) && partCount == (if i < MAX_PARTITIONS then i else MAX_PARTITIONS)
        invariant parts[..partCount] == ReadParts(Words(), partCount)
      {
        EntryInside(Words(), i);
        var name, start, length, tag := GetEntry(p);
        ReadNext(Words(), i);
        var kept := AddPartition(name, start, length, tag);
        EntryStep(size, i);
        p := p + size;
      }
    }

    /** The index of the first partition of that name, or the table's size. */
    method FindPartition(name: text) returns (k: nat)
      requires Valid()
      ensures k <= partCount
      ensures if k < partCount then FirstNamed(parts[..partCount], name, k) else NoneNamed(parts[..partCount], name)
    {
      hide SameName;
      k := 0;
      while k < partCount && !SameName(name, parts[k].name)
        invariant k <= partCount && forall i :: 0 <= i < k ==> !SameName(name, parts[i].name)
      {
        k := k + 1;
      }
    }

    /** set_current_band: the image is left alone unless it has a label naming the
        partition, and then carries the same label with that load band. */
    method SetCurrentBand(name: text) returns (code: int)
      requires Valid() && CanRelabel(image)
      modifies this, parts, buffer
      ensures Valid() && Relabelled(old(image), image, name, code, (l: Pack, n: text) => l.(lod := n))
    {
      hide Ascii, FirstNamed, NoneNamed, ReadLabel, Readable, LabelWords, PackBytes, Label.CString;
      var ok := ReadLabl();
      if !ok {
        return -1;
      }
      ghost var l := Described();
      assert l.parts == parts[..partCount];
      var k := FindPartition(name);
      FirstIsUnique(l.parts, name, k);
      if k == partCount {
        return -1;
      }
      lodName := parts[k].name;
      assert Described() == l.(lod := l.parts[k].name) && ValidPart(l.parts[k]);
      MakeLabl();
      code := 0;
    }

    /** set_current_mcr: the same for the microcode partition. */
    method SetCurrentMcr(name: text) returns (code: int)
      requires Valid() && CanRelabel(image)
      modifies this, parts, buffer
      ensures Valid() && Relabelled(old(image), image, name, code, (l: Pack, n: text) => l.(mcr := n))
    {
      hide Ascii, FirstNamed, NoneNamed, ReadLabel, Readable, LabelWords, PackBytes, Label.CString;
      var ok := ReadLabl();
      if !ok {
        return -1;
      }
      ghost var l := Described();
      assert l.parts == parts[..partCount];
      var k := FindPartition(name);
      FirstIsUnique(l.parts, name, k);
      if k == partCount {
        return -1;
      }
      mcrName := parts[k].name;
      assert Described() == l.(mcr := l.parts[k].name) && ValidPart(l.parts[k]);
      MakeLabl();
      code := 0;
    }
  }
}
