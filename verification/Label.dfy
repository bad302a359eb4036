/** Disk pack labels: the 256-word layout, and reading back what was laid out. */
module Label {
  import opened Words

  type text = seq<byte>

  const MAX_PARTITIONS := 32
  const LABEL_PARTITIONS := 18     // what fits the label block
  const LABL := [0x4C, 0x41, 0x42, 0x4C]
  const SPACE := 0x20

  /** A partition: four-character name, extent and sixteen-character label. */
  datatype Part = Part(name: text, start: word, size: word, tag: text)

  datatype Pack = Pack(
    cyls: word, heads: word, blocksPerTrack: word, mcr: text, lod: text, parts: seq<Part>,
    brand: text, description: text, comment: text)

  // ---------------------------------------------------------------------
  // Characters in words

  predicate Ascii(s: text) { forall i :: 0 <= i < |s| ==> 0 < s[i] < 128 }

  /** str4: four characters, the first in the low byte. */
  function Str4(s: text): word
    requires |s| >= 4
  {
    Little(s[0], s[1], s[2], s[3])
  }

  function Little(b0: nat, b1: nat, b2: nat, b3: nat): nat { b0 + 0x100 * b1 + 0x1_0000 * b2 + 0x100_0000 * b3 }

  /** unstr4's four bytes. */
  function UnStr4(w: word): (s: text)
    ensures |s| == 4
  {
    [w % 0x100, (w / 0x100) % 0x100, (w / 0x1_0000) % 0x100, w / 0x100_0000]
  }

  lemma UnStr4Str4(s: text)
    requires |s| == 4
    ensures UnStr4(Str4(s)) == s
  {
    LittleDigits(s[0], s[1], s[2], s[3]);
  }

  lemma LittleDigits(b0: nat, b1: nat, b2: nat, b3: nat)
    requires b0 < 0x100 && b1 < 0x100 && b2 < 0x100 && b3 < 0x100
    ensures var w := Little(b0, b1, b2, b3);
            w % 0x100 == b0 && (w / 0x100) % 0x100 == b1 && (w / 0x1_0000) % 0x100 == b2 && w / 0x100_0000 == b3
  {
    var w := Little(b0, b1, b2, b3);
    var x := b2 + 0x100 * b3;
    DivModUnique(w, 0x100, b1 + 0x100 * x, b0);
    DivModUnique(w, 0x1_0000, x, b0 + 0x100 * b1);
    DivModUnique(b1 + 0x100 * x, 0x100, x, b1);
    DivModUnique(x, 0x100, b3, b2);
    DivModUnique(w, 0x100_0000, b3, b0 + 0x100 * b1 + 0x1_0000 * b2);
  }

  /** A C string: the bytes before the first NUL. */
  function CString(bytes: text): text
    decreases |bytes|
  {
    if bytes == [] || bytes[0] == 0 then [] else [bytes[0]] + CString(bytes[1..])
  }

  lemma {:induction false} CStringOf(s: text, rest: text)
    requires Ascii(s) && (rest == [] || rest[0] == 0)
    ensures CString(s + rest) == s
    decreases |s|
  {
    if s == [] {
      assert s + rest == rest;
    } else {
      assert (s + rest)[1..] == s[1..] + rest;
      CStringOf(s[1..], rest);
    }
  }

  /** Bytes packed four to a word, and unpacked again. */
  function PackBytes(bytes: text): (words: seq<word>)
    requires |bytes| % 4 == 0
    ensures |words| == |bytes| / 4
    decreases |bytes|
  {
    if bytes == [] then [] else [Str4(bytes[..4])] + PackBytes(bytes[4..])
  }

  function Flatten(words: seq<word>): text
    decreases |words|
  {
    if words == [] then [] else UnStr4(words[0]) + Flatten(words[1..])
  }

  lemma PackStep(bytes: text, after: seq<word>)
    requires |bytes| % 4 == 0 && |bytes| > 0
    ensures PackBytes(bytes) + after == [Str4(bytes[..4])] + (PackBytes(bytes[4..]) + after)
  {
    hide Str4, Flatten, UnStr4;
  }

  lemma FlattenStep(first: word, others: seq<word>)
    ensures Flatten([first] + others) == UnStr4(first) + Flatten(others)
  {
    hide Str4, PackBytes, UnStr4;
    assert ([first] + others)[1..] == others;
  }

  lemma {:induction false} FlattenPack(bytes: text, after: seq<word>)
    requires |bytes| % 4 == 0
    ensures Flatten(PackBytes(bytes) + after) == bytes + Flatten(after)
    decreases |bytes|
  {
    hide Str4, UnStr4, Flatten;
    if bytes == [] {
      assert PackBytes(bytes) + after == after;
      assert bytes + Flatten(after) == Flatten(after);
    } else {
      hide PackBytes;
      FlattenPack(bytes[4..], after);
      PackStep(bytes, after);
      FlattenStep(Str4(bytes[..4]), PackBytes(bytes[4..]) + after);
      UnStr4Str4(bytes[..4]);
      FirstFour(bytes, Flatten(after));
    }
  }

  lemma FirstFour(bytes: text, rest: text)
    requires |bytes| >= 4
    ensures bytes[..4] + (bytes[4..] + rest) == bytes + rest
  {
    hide *;
  }

  lemma {:induction false} PackAt(bytes: text, k: nat)
    requires |bytes| % 4 == 0 && 4 * k < |bytes|
    ensures PackBytes(bytes)[k] == Str4(bytes[4 * k..4 * k + 4])
    decreases k
  {
    hide Str4, Flatten, UnStr4, PackBytes;
    PackStep(bytes, []);
    assert PackBytes(bytes) + [] == PackBytes(bytes) && PackBytes(bytes[4..]) + [] == PackBytes(bytes[4..]);
    if k > 0 {
      PackAt(bytes[4..], k - 1);
      Slice(bytes, 4, |bytes|, 4 * (k - 1), 4 * k);
      assert bytes[4..] == bytes[4..|bytes|];
    }
  }

  // ---------------------------------------------------------------------
  // The layout

  /** A 32-byte text field: the string, its NUL, and the padding it overwrote. */
  function TextField(s: text, pad: byte): (f: text)
    requires |s| < 32
    ensures |f| == 32
  {
    s + [0] + seq(31 - |s|, i => pad)
  }

  predicate ValidPart(p: Part) {
    |p.name| == 4 && |p.tag| == 16 && Ascii(p.name) && Ascii(p.tag)
  }

  /** A pack that fits the label: ASCII names of four characters, labels padded to
      sixteen, texts short of their fields. */
  predicate ValidPack(l: Pack) {
    && |l.mcr| == 4 && |l.lod| == 4 && Ascii(l.mcr) && Ascii(l.lod)
    && |l.parts| <= LABEL_PARTITIONS && (forall i :: 0 <= i < |l.parts| ==> ValidPart(l.parts[i]))
    && |l.brand| < 32 && |l.description| < 32 && |l.comment| < 32
    && Ascii(l.brand) && Ascii(l.description) && Ascii(l.comment)
  }

  function PartWords(p: Part): (w: seq<word>)
    requires |p.name| >= 4 && |p.tag| >= 16
    ensures |w| == 7
  {
    [Str4(p.name), p.start, p.size, Str4(p.tag[0..4]), Str4(p.tag[4..8]), Str4(p.tag[8..12]), Str4(p.tag[12..16])]
  }

  function AllPartWords(parts: seq<Part>): (w: seq<word>)
    requires forall i :: 0 <= i < |parts| ==> ValidPart(parts[i])
    ensures |w| == 7 * |parts|
    decreases |parts|
  {
    if parts == [] then []
    else
      assert ValidPart(parts[|parts| - 1]);
      AllPartWords(parts[..|parts| - 1]) + PartWords(parts[|parts| - 1])
  }

  function Header(l: Pack): (w: seq<word>)
    requires ValidPack(l)
    ensures |w| == 8
  {
    [Str4(LABL), 1, l.cyls, l.heads, l.blocksPerTrack, Wrap(l.heads * l.blocksPerTrack), Str4(l.mcr), Str4(l.lod)]
  }

  function Texts(l: Pack): (w: seq<word>)
    requires ValidPack(l)
    ensures |w| == 24
  {
    PackBytes(TextField(l.brand, 0)) + PackBytes(TextField(l.description, SPACE)) + PackBytes(TextField(l.comment, 0))
  }

  function Zeros(n: nat): (w: seq<word>)
    ensures |w| == n
  {
    seq(n, i => 0)
  }

  /** The label after its header. */
  function Body(l: Pack): (w: seq<word>)
    requires ValidPack(l)
    ensures |w| == 248
  {
    Texts(l) + Zeros(96) + [|l.parts|, 7] + AllPartWords(l.parts) + Zeros(126 - 7 * |l.parts|)
  }

  /** The label block: header, texts from word 010, partitions from word 0200. */
  function LabelWords(l: Pack): (w: seq<word>)
    requires ValidPack(l)
    ensures |w| == 256
  {
    Header(l) + Body(l)
  }

  // ---------------------------------------------------------------------
  // Reading

  /** add_partition pads a label with spaces after its end. */
  function PadTag(tag: text): (p: text)
    ensures |p| >= 16
  {
    var s := CString(if |tag| > 16 then tag[..16] else tag);
    s + seq(if |s| < 16 then 16 - |s| else 0, i => SPACE)
  }

  /** An ASCII label comes out sixteen long: itself, cut or followed by spaces. */
  lemma PadTagFills(tag: text)
    requires Ascii(tag)
    ensures var p := PadTag(tag);
            |p| == 16 && Ascii(p) && forall i :: 0 <= i < 16 ==> p[i] == if i < |tag| then tag[i] else SPACE
  {
    var s := if |tag| > 16 then tag[..16] else tag;
    CStringOf(s, []);
    assert s + [] == s;
    hide CString;
  }

  function PartAt(words: seq<word>, p: nat): Part
    requires p + 7 <= |words|
  {
    Part(CString(UnStr4(words[p])), words[p + 1], words[p + 2],
         PadTag(UnStr4(words[p + 3]) + UnStr4(words[p + 4]) + UnStr4(words[p + 5]) + UnStr4(words[p + 6])))
  }

  /** The partition entries the label announces all lie in the block. */
  predicate Readable(words: seq<word>) {
    |words| == 256 && EntriesFit(words[128], words[129])
  }

  predicate EntriesFit(count: nat, size: nat) { count > 0 ==> EntryAt(size, count - 1) + 7 <= 256 }

  /** Word 0202 starts the entries, `size` words apart. */
  function EntryAt(size: nat, i: nat): nat { 130 + i * size }

  lemma EntryStep(size: nat, i: nat)
    ensures EntryAt(size, 0) == 130 && EntryAt(size, i + 1) == EntryAt(size, i) + size
  {
  }

  lemma EntryInside(words: seq<word>, i: nat)
    requires Readable(words) && i < words[128]
    ensures EntryAt(words[129], i) + 7 <= 256
  {
    MulMonotone(i, words[128] - 1, words[129]);
  }

  function ReadParts(words: seq<word>, n: nat): (parts: seq<Part>)
    requires Readable(words) && n <= words[128]
    ensures |parts| == n
    decreases n
  {
    if n == 0 then []
    else
      EntryInside(words, n - 1);
      ReadParts(words, n - 1) + [PartAt(words, EntryAt(words[129], n - 1))]
  }

  function TextAt(words: seq<word>, from: nat): text
    requires from <= |words|
  {
    CString(Flatten(words[from..]))
  }

  /** read_labl: refused without the magic word and version 1; partitions past the
      table's end are not kept. */
  function ReadLabel(words: seq<word>): Option<Pack>
    requires Readable(words)
  {
    if words[0] != Str4(LABL) || words[1] != 1 then None
    else
      Some(Pack(words[2], words[3], words[4], CString(UnStr4(words[6])), CString(UnStr4(words[7])),
                ReadParts(words, if words[128] < MAX_PARTITIONS then words[128] else MAX_PARTITIONS),
                TextAt(words, 8), TextAt(words, 16), TextAt(words, 24)))
  }

  // ---------------------------------------------------------------------
  // Round trip

  lemma TextBack(words: seq<word>, from: nat, s: text, pad: byte)
    requires |s| < 32 && Ascii(s) && from + 8 <= |words|
    requires words[from..from + 8] == PackBytes(TextField(s, pad))
    ensures TextAt(words, from) == s
  {
    var field, after := TextField(s, pad), words[from + 8..];
    assert words[from..] == words[from..from + 8] + after;
    FlattenPack(field, after);
    var rest := [0] + seq(31 - |s|, i => pad) + Flatten(after);
    assert field + Flatten(after) == s + rest;
    CStringOf(s, rest);
    hide CString, Flatten, PackBytes, Ascii;
  }

  lemma NameBack(s: text)
    requires |s| == 4 && Ascii(s)
    ensures CString(UnStr4(Str4(s))) == s
  {
    hide CString, UnStr4, Str4;
    UnStr4Str4(s);
    CStringOf(s, []);
    assert s + [] == s;
  }

  lemma TagBack(s: text)
    requires |s| == 16 && Ascii(s)
    ensures PadTag(UnStr4(Str4(s[0..4])) + UnStr4(Str4(s[4..8])) + UnStr4(Str4(s[8..12])) + UnStr4(Str4(s[12..16]))) == s
  {
    hide CString, UnStr4, Str4, Ascii;
    UnStr4Str4(s[0..4]);
    UnStr4Str4(s[4..8]);
    UnStr4Str4(s[8..12]);
    UnStr4Str4(s[12..16]);
    assert s[0..4] + s[4..8] + s[8..12] + s[12..16] == s;
    CStringOf(s, []);
    assert s + [] == s;
  }

  lemma PartBack(words: seq<word>, p: nat, part: Part)
    requires p + 7 <= |words| && ValidPart(part) && words[p..p + 7] == PartWords(part)
    ensures PartAt(words, p) == part
  {
    hide PadTag, CString, UnStr4, Str4, Ascii;
    NameBack(part.name);
    TagBack(part.tag);
    forall j | 0 <= j < 7 ensures words[p + j] == PartWords(part)[j] {
      assert words[p..p + 7][j] == words[p + j];
    }
    assert words[p + 0] == Str4(part.name);
  }

  lemma {:induction false} PartsAt(parts: seq<Part>, i: nat)
    requires (forall k :: 0 <= k < |parts| ==> ValidPart(parts[k])) && i < |parts|
    ensures AllPartWords(parts)[7 * i..7 * i + 7] == PartWords(parts[i])
    decreases |parts|
  {
    hide PartWords;
    var init := parts[..|parts| - 1];
    if i < |init| {
      PartsAt(init, i);
      assert AllPartWords(parts)[7 * i..7 * i + 7] == AllPartWords(init)[7 * i..7 * i + 7];
    }
  }

  lemma ReadNext(words: seq<word>, i: nat)
    requires Readable(words) && i < words[128]
    ensures EntryAt(words[129], i) + 7 <= 256
    ensures ReadParts(words, i + 1) == ReadParts(words, i) + [PartAt(words, EntryAt(words[129], i))]
  {
    hide PartAt;
    EntryInside(words, i);
  }

  lemma {:induction false} PartsBack(words: seq<word>, parts: seq<Part>, n: nat)
    requires (forall k :: 0 <= k < |parts| ==> ValidPart(parts[k])) && |parts| <= LABEL_PARTITIONS
    requires Readable(words) && words[128] == |parts| && words[129] == 7 && n <= |parts|
    requires words[130..130 + 7 * |parts|] == AllPartWords(parts)
    ensures ReadParts(words, n) == parts[..n]
    decreases n
  {
    hide PartAt, PartWords, AllPartWords, ValidPart, ReadParts;
    if n > 0 {
      var i := n - 1;
      PartsBack(words, parts, i);
      ReadNext(words, i);
      assert EntryAt(words[129], i) == 130 + 7 * i;
      PartsAt(parts, i);
      Slice(words, 130, 130 + 7 * |parts|, 7 * i, 7 * i + 7);
      PartBack(words, 130 + 7 * i, parts[i]);
      assert parts[..n] == parts[..i] + [parts[i]];
    } else {
      ReadNone(words);
    }
  }

  lemma ReadNone(words: seq<word>)
    requires Readable(words)
    ensures ReadParts(words, 0) == []
  {
  }

  lemma LabelShape(l: Pack)
    requires ValidPack(l)
    ensures var w := LabelWords(l);
            && w[..8] == Header(l) && w[8..32] == Texts(l) && w[128] == |l.parts| && w[129] == 7
            && w[130..130 + 7 * |l.parts|] == AllPartWords(l.parts) && Readable(w)
  {
    hide Header, Texts, AllPartWords;
  }

  /** Reading a label just made restores the pack. */
  lemma ReadAfterMake(l: Pack)
    requires ValidPack(l)
    ensures Readable(LabelWords(l)) && ReadLabel(LabelWords(l)) == Some(l)
  {
    var w := LabelWords(l);
    LabelShape(l);
    hide LabelWords, ReadParts, TextAt, CString, UnStr4, Str4, Texts, AllPartWords, Readable;
    TextsShape(l, w);
    HeaderShape(l, w);
    NameBack(l.mcr);
    NameBack(l.lod);
    PartsBack(w, l.parts, |l.parts|);
    assert l.parts[..|l.parts|] == l.parts;
  }

  lemma HeaderShape(l: Pack, w: seq<word>)
    requires ValidPack(l) && |w| == 256 && w[..8] == Header(l)
    ensures w[0] == Str4(LABL) && w[1] == 1 && w[2] == l.cyls && w[3] == l.heads && w[4] == l.blocksPerTrack
    ensures w[6] == Str4(l.mcr) && w[7] == Str4(l.lod)
  {
    hide Str4, Ascii;
    forall j | 0 <= j < 8 ensures w[j] == Header(l)[j] {
      assert w[..8][j] == w[j];
    }
  }

  lemma TextsShape(l: Pack, w: seq<word>)
    requires ValidPack(l) && |w| == 256 && w[8..32] == Texts(l)
    ensures TextAt(w, 8) == l.brand && TextAt(w, 16) == l.description && TextAt(w, 24) == l.comment
  {
    var b, d := PackBytes(TextField(l.brand, 0)), PackBytes(TextField(l.description, SPACE));
    var c := PackBytes(TextField(l.comment, 0));
    hide PackBytes, TextField, Ascii, TextAt;
    Slice(w, 8, 32, 0, 8);
    Slice(w, 8, 32, 8, 16);
    Slice(w, 8, 32, 16, 24);
    ThreeParts(b, d, c, Texts(l));
    hide Texts;
    TextBack(w, 8, l.brand, 0);
    TextBack(w, 16, l.description, SPACE);
    TextBack(w, 24, l.comment, 0);
  }

  // ---------------------------------------------------------------------
  // The layout word by word

  /** Four bytes of a word, the first the lowest. */
  predicate Holds4(w: word, b0: nat, b1: nat, b2: nat, b3: nat) {
    w == b0 + 0x100 * b1 + 0x1_0000 * b2 + 0x100_0000 * b3
  }

  /** Byte j of a text field: the string, its NUL, then padding. */
  function TextByte(s: text, pad: byte, j: nat): byte { if j < |s| then s[j] else if j == |s| then 0 else pad }

  /** Eight words from `at` on are the text field. */
  ghost predicate HoldsText(w: seq<word>, at: nat, s: text, pad: byte)
    requires at + 8 <= |w|
  {
    forall k :: 0 <= k < 8 ==> HoldsFour(w[at + k], s, pad, 4 * k)
  }

  predicate HoldsFour(w: word, s: text, pad: byte, j: nat) {
    Holds4(w, TextByte(s, pad, j), TextByte(s, pad, j + 1), TextByte(s, pad, j + 2), TextByte(s, pad, j + 3))
  }

  /** Seven words from `at` on are the partition. */
  predicate HoldsPart(w: seq<word>, at: nat, p: Part)
    requires at + 7 <= |w| && |p.name| >= 4 && |p.tag| >= 16
  {
    && Holds4(w[at], p.name[0], p.name[1], p.name[2], p.name[3]) && w[at + 1] == p.start && w[at + 2] == p.size
    && Holds4(w[at + 3], p.tag[0], p.tag[1], p.tag[2], p.tag[3])
    && Holds4(w[at + 4], p.tag[4], p.tag[5], p.tag[6], p.tag[7])
    && Holds4(w[at + 5], p.tag[8], p.tag[9], p.tag[10], p.tag[11])
    && Holds4(w[at + 6], p.tag[12], p.tag[13], p.tag[14], p.tag[15])
  }

  /** Magic word, version, geometry, names, three texts, and the partitions from word 0202
      on, seven words each. */
  lemma LabelLayout(l: Pack)
    requires ValidPack(l)
    ensures var w := LabelWords(l);
            && w[0] == 0x4C42_414C && w[1] == 1 && w[2] == l.cyls && w[3] == l.heads && w[4] == l.blocksPerTrack
            && w[5] == (l.heads * l.blocksPerTrack) % 0x1_0000_0000
            && Holds4(w[6], l.mcr[0], l.mcr[1], l.mcr[2], l.mcr[3])
            && Holds4(w[7], l.lod[0], l.lod[1], l.lod[2], l.lod[3])
            && HoldsText(w, 8, l.brand, 0) && HoldsText(w, 16, l.description, 0x20) && HoldsText(w, 24, l.comment, 0)
            && w[128] == |l.parts| && w[129] == 7
            && forall i :: 0 <= i < |l.parts| ==> ValidPart(l.parts[i]) && HoldsPart(w, 130 + 7 * i, l.parts[i])
  {
    var w := LabelWords(l);
    LabelShape(l);
    hide LabelWords, AllPartWords, Texts, Header, Ascii, HoldsPart, HoldsText, Str4, ValidPart;
    TextsLaid(l, w);
    HeaderLaid(l, w);
    PartsLaid(l, w);
  }

  lemma HeaderLaid(l: Pack, w: seq<word>)
    requires ValidPack(l) && |w| == 256 && w[..8] == Header(l)
    ensures w[0] == 0x4C42_414C && w[1] == 1 && w[2] == l.cyls && w[3] == l.heads && w[4] == l.blocksPerTrack
    ensures w[5] == (l.heads * l.blocksPerTrack) % 0x1_0000_0000
    ensures Holds4(w[6], l.mcr[0], l.mcr[1], l.mcr[2], l.mcr[3]) && Holds4(w[7], l.lod[0], l.lod[1], l.lod[2], l.lod[3])
  {
    HeaderShape(l, w);
    Magic();
    assert w[5] == w[..8][5];
    hide Ascii;
  }

  lemma PartsLaid(l: Pack, w: seq<word>)
    requires ValidPack(l) && |w| == 256 && w[130..130 + 7 * |l.parts|] == AllPartWords(l.parts)
    ensures forall i :: 0 <= i < |l.parts| ==> ValidPart(l.parts[i]) && HoldsPart(w, 130 + 7 * i, l.parts[i])
  {
    forall i | 0 <= i < |l.parts| ensures HoldsPart(w, 130 + 7 * i, l.parts[i]) { PartLaidAt(l.parts, w, i); }
    hide AllPartWords, HoldsPart, Ascii;
  }

  lemma {:induction false} PartLaidAt(parts: seq<Part>, w: seq<word>, i: nat)
    requires (forall k :: 0 <= k < |parts| ==> ValidPart(parts[k])) && i < |parts| <= LABEL_PARTITIONS && |w| == 256
    requires w[130..130 + 7 * |parts|] == AllPartWords(parts)
    ensures HoldsPart(w, 130 + 7 * i, parts[i])
  {
    PartsAt(parts, i);
    Slice(w, 130, 130 + 7 * |parts|, 7 * i, 7 * i + 7);
    PartLaid(w, 130 + 7 * i, parts[i]);
    hide *;
  }

  lemma PartLaid(w: seq<word>, at: nat, p: Part)
    requires at + 7 <= |w| && ValidPart(p) && w[at..at + 7] == PartWords(p)
    ensures HoldsPart(w, at, p)
  {
    hide Ascii;
    forall j | 0 <= j < 7 ensures w[at + j] == PartWords(p)[j] {
      assert w[at..at + 7][j] == w[at + j];
    }
    assert w[at + 0] == Str4(p.name);
  }

  lemma TextsLaid(l: Pack, w: seq<word>)
    requires ValidPack(l) && |w| == 256 && w[8..32] == Texts(l)
    ensures HoldsText(w, 8, l.brand, 0) && HoldsText(w, 16, l.description, 0x20) && HoldsText(w, 24, l.comment, 0)
  {
    var b, d := PackBytes(TextField(l.brand, 0)), PackBytes(TextField(l.description, SPACE));
    var c := PackBytes(TextField(l.comment, 0));
    hide PackBytes, TextField, Ascii, HoldsText;
    Slice(w, 8, 32, 0, 8);
    Slice(w, 8, 32, 8, 16);
    Slice(w, 8, 32, 16, 24);
    ThreeParts(b, d, c, Texts(l));
    hide Texts;
    TextLaid(w, 8, l.brand, 0);
    TextLaid(w, 16, l.description, SPACE);
    TextLaid(w, 24, l.comment, 0);
  }

  lemma TextLaid(w: seq<word>, at: nat, s: text, pad: byte)
    requires |s| < 32 && at + 8 <= |w| && w[at..at + 8] == PackBytes(TextField(s, pad))
    ensures HoldsText(w, at, s, pad)
  {
    var f := TextField(s, pad);
    forall k | 0 <= k < 8 ensures HoldsFour(w[at + k], s, pad, 4 * k) {
      assert w[at + k] == w[at..at + 8][k];
      PackAt(f, k);
      FieldFour(s, pad, k);
      hide PackBytes, TextField, HoldsFour;
    }
    hide PackBytes, TextField, HoldsFour;
  }

  lemma FieldFour(s: text, pad: byte, k: nat)
    requires |s| < 32 && k < 8
    ensures HoldsFour(Str4(TextField(s, pad)[4 * k..4 * k + 4]), s, pad, 4 * k)
  {
    var f := TextField(s, pad);
    assert forall j :: 0 <= j < 32 ==> f[j] == TextByte(s, pad, j);
    var g := f[4 * k..4 * k + 4];
    assert g[0] == f[4 * k] && g[1] == f[4 * k + 1] && g[2] == f[4 * k + 2] && g[3] == f[4 * k + 3];
    hide TextField, TextByte;
  }

  /** Reading takes the entries in order, as far apart as the label says and at most
      thirty-two of them, and refuses another magic word or version. */
  lemma ReadEntries(words: seq<word>, i: nat, at: nat)
    requires Readable(words) && at == 130 + i * words[129]
    ensures ReadLabel(words).None? <==> words[0] != 0x4C42_414C || words[1] != 1
    ensures ReadLabel(words).Some? ==>
              var l, n := ReadLabel(words).value, if words[128] < 32 then words[128] else 32;
              && l.cyls == words[2] && l.heads == words[3] && l.blocksPerTrack == words[4] && |l.parts| == n
              && (i < n ==> at + 7 <= 256 && l.parts[i].start == words[at + 1] && l.parts[i].size == words[at + 2])
  {
    var n := if words[128] < 32 then words[128] else 32;
    assert n <= words[128];
    Magic();
    hide PartAt, ReadParts, TextAt, CString, UnStr4, Str4, EntriesFit;
    if i < n { EntryAtRead(words, n, i, at); }
  }

  lemma Magic()
    ensures Str4(LABL) == 0x4C42_414C
  {
  }

  lemma EntryAtRead(words: seq<word>, n: nat, i: nat, at: nat)
    requires Readable(words) && n <= words[128] && i < n && at == EntryAt(words[129], i)
    ensures at + 7 <= 256 && ReadParts(words, n)[i].start == words[at + 1] && ReadParts(words, n)[i].size == words[at + 2]
  {
    EntryRead(words, n, i);
    hide CString, UnStr4, PadTag, ReadParts, EntryAt, EntriesFit;
  }

  lemma {:induction false} EntryRead(words: seq<word>, n: nat, i: nat)
    requires Readable(words) && n <= words[128] && i < n
    ensures EntryAt(words[129], i) + 7 <= 256 && ReadParts(words, n)[i] == PartAt(words, EntryAt(words[129], i))
    decreases n
  {
    EntryInside(words, n - 1);
    if i < n - 1 { EntryRead(words, n - 1, i); }
    hide PartAt, EntryAt;
  }

  lemma Slice<T>(w: seq<T>, from: nat, to: nat, i: nat, j: nat)
    requires from <= to <= |w| && i <= j <= to - from
    ensures w[from..to][i..j] == w[from + i..from + j]
  {
    var a, b := w[from..to][i..j], w[from + i..from + j];
    assert forall k :: 0 <= k < |a| ==> a[k] == w[from..to][i + k] == b[k];
    assert a == b;
  }

  lemma ThreeParts(b: seq<word>, d: seq<word>, c: seq<word>, t: seq<word>)
    requires |b| == |d| == |c| == 8 && t == b + d + c
    ensures t[0..8] == b && t[8..16] == d && t[16..24] == c
  {
  }

  lemma HeaderNames(l: Pack, name: text)
    requires ValidPack(l) && |name| == 4 && Ascii(name)
    ensures Header(l.(lod := name)) == Header(l)[7 := Str4(name)]
    ensures Header(l.(mcr := name)) == Header(l)[6 := Str4(name)]
  {
    hide Str4, Ascii;
  }

  lemma UpdateFirst(a: seq<word>, b: seq<word>, i: nat, x: word)
    requires i < |a|
    ensures a[i := x] + b == (a + b)[i := x]
  {
  }

  /** Only word 7 carries the load band's name, and only word 6 the microcode's. */
  lemma BandIsWord7(l: Pack, name: text)
    requires ValidPack(l) && |name| == 4 && Ascii(name)
    ensures LabelWords(l.(lod := name)) == LabelWords(l)[7 := Str4(name)]
    ensures LabelWords(l.(mcr := name)) == LabelWords(l)[6 := Str4(name)]
  {
    hide Header, Body, Str4, Ascii;
    HeaderNames(l, name);
    SameBody(l, name);
    UpdateFirst(Header(l), Body(l), 7, Str4(name));
    UpdateFirst(Header(l), Body(l), 6, Str4(name));
  }

  lemma SameBody(l: Pack, name: text)
    requires ValidPack(l) && |name| == 4 && Ascii(name)
    ensures Body(l.(lod := name)) == Body(l) == Body(l.(mcr := name))
  {
    hide AllPartWords, PackBytes, TextField, Ascii;
  }
}
