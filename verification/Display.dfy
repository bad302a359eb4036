/** The TV bitmap, and the rectangle of pending updates that keeps the window
    equal to it. */
module Display {
  import opened Words

  const WIDTH := 768
  const HEIGHT := 897
  const PIXELS := 0xC_0000       // 768 * 1024
  const NO_UPDATE := 0x7FFF_FFFF
  const BLACK := 0
  const WHITE := 0xFF_FFFF

  /** Words of the bitmap: 32 pixels each. */
  const TV_WORDS := PIXELS / 32

  function Pixel(bits: word, i: nat): word { if Bit(bits, i) then BLACK else WHITE }

  /** A bitmap with the 32 pixels of one word set. */
  function Drawn(bitmap: seq<word>, offset: nat, bits: word): seq<word>
    requires 32 * offset + 32 <= |bitmap|
  {
    bitmap[..32 * offset] + seq(32, i requires 0 <= i => Pixel(bits, i)) + bitmap[32 * offset + 32..]
  }

  /** The rectangle of pending updates; nothing pending when minh is the sentinel. */
  datatype Update = Update(minh: nat, maxh: nat, minv: nat, maxv: nat)

  const NOTHING := Update(NO_UPDATE, 0, NO_UPDATE, 0)

  function Min(x: nat, y: nat): nat { if x < y then x else y }
  function Max(x: nat, y: nat): nat { if x > y then x else y }

  function Accumulate(u: Update, h: nat, v: nat, hs: nat, vs: nat): Update {
    Update(Min(h, u.minh), Max(h + hs, u.maxh), Min(v, u.minv), Max(v + vs, u.maxv))
  }

  predicate Covers(u: Update, h: nat, v: nat) { u.minh <= h < u.maxh && u.minv <= v < u.maxv }

  lemma AccumulateCovers(u: Update, h: nat, v: nat, hs: nat, vs: nat, x: nat, y: nat)
    requires Covers(u, x, y) || (h <= x < h + hs && v <= y < v + vs)
    ensures Covers(Accumulate(u, h, v, hs, vs), x, y)
  {
  }

  /** The first rectangle is pending exactly as it is. */
  lemma FirstUpdate(h: nat, v: nat, hs: nat, vs: nat, x: nat, y: nat)
    requires h < NO_UPDATE && v < NO_UPDATE && hs > 0 && vs > 0
    ensures Covers(Accumulate(NOTHING, h, v, hs, vs), x, y) <==> h <= x < h + hs && v <= y < v + vs
    ensures Pending(Accumulate(NOTHING, h, v, hs, vs)) && !Pending(NOTHING)
  {
  }

  /** And no rectangle smaller than the accumulated one covers both. */
  lemma AccumulateIsLeast(u: Update, h: nat, v: nat, hs: nat, vs: nat, around: Update)
    requires around.minh <= u.minh && u.maxh <= around.maxh && around.minv <= u.minv && u.maxv <= around.maxv
    requires around.minh <= h && h + hs <= around.maxh && around.minv <= v && v + vs <= around.maxv
    ensures var a := Accumulate(u, h, v, hs, vs);
            around.minh <= a.minh && a.maxh <= around.maxh && around.minv <= a.minv && a.maxv <= around.maxv
  {
  }

  /** Some rectangle was accumulated, so the update will be sent. */
  predicate Pending(u: Update) { u.minh != NO_UPDATE && u.minv != NO_UPDATE && u.maxh != 0 && u.maxv != 0 }

  class Tv {
    const bitmap: array<word>
    const window: array<word>      // what the X server shows, HEIGHT rows of WIDTH pixels
    var update: Update

    ghost predicate Valid()
      reads this
    {
      bitmap != window && bitmap.Length == PIXELS && window.Length == WIDTH * HEIGHT
    }

    /** Every visible pixel that the window shows wrongly lies in the rectangle. */
    ghost predicate Tracked()
      reads this, bitmap, window
      requires Valid()
    {
      && (update == NOTHING || Pending(update))
      && forall p :: 0 <= p < WIDTH * HEIGHT && window[p] != bitmap[p] ==> Covers(update, p % WIDTH, p / WIDTH)
    }

    constructor (bitmap: array<word>, window: array<word>)
      requires bitmap != window && bitmap.Length == PIXELS && window.Length == WIDTH * HEIGHT
      ensures Valid() && this.bitmap == bitmap && this.window == window && update == NOTHING
    {
      this.bitmap, this.window, update := bitmap, window, NOTHING;
    }

    method AccumulateUpdate(h: nat, v: nat, hs: nat, vs: nat)
      modifies `update
      ensures update == Accumulate(old(update), h, v, hs, vs)
    {
      if h < update.minh {
        update := update.(minh := h);
      }
      if h + hs > update.maxh {
        update := update.(maxh := h + hs);
      }
      if v < update.minv {
        update := update.(minv := v);
      }
      if v + vs > update.maxv {
        update := update.(maxv := v + vs);
      }
    }

    /** tv_write: draw a word and remember the line segment as changed. */
    method Write(offset: nat, bits: word)
      requires Valid() && Tracked() && offset < TV_WORDS
      modifies this, bitmap
      ensures Valid() && Tracked()
      ensures bitmap[..] == Drawn(old(bitmap[..]), offset, bits)
    {
      var at := 32 * offset;
      var v, h := at / WIDTH, at % WIDTH;
      ghost var was := bitmap[..];
      DrawWord(at, bits);
      SegmentInLine(offset);
      AccumulateUpdate(h, v, 32, 1);
      forall p | 0 <= p < WIDTH * HEIGHT && window[p] != bitmap[p]
        ensures Covers(update, p % WIDTH, p / WIDTH)
      {
        if at <= p < at + 32 {
          PixelInSegment(offset, p);
        } else {
          assert bitmap[p] == was[p];
        }
        AccumulateCovers(old(update), h, v, 32, 1, p % WIDTH, p / WIDTH);
      }
    }

    method DrawWord(at: nat, bits: word)
      requires Valid() && at % 32 == 0 && at + 32 <= PIXELS
      modifies bitmap
      ensures bitmap[..] == Drawn(old(bitmap[..]), at / 32, bits)
    {
      var rest: nat := bits;
      ghost var was := bitmap[..];
      hide Shr;
      ShrNone(bits);
      for i := 0 to 32
        invariant rest == Shr(bits, i)
        invariant forall j :: 0 <= j < i ==> bitmap[at + j] == Pixel(bits, j)
        invariant forall p :: 0 <= p < PIXELS && !(at <= p < at + i) ==> bitmap[p] == was[p]
      {
        BitsOfShr(bits, i, 0);
        var black := rest % 2 == 1;
        assert black == Bit(bits, i);
        hide Bit;
        bitmap[at + i] := if black then BLACK else WHITE;
        ShrNext(bits, i);
        rest := rest / 2;
      }
      DrawnIs(was, bitmap[..], at / 32, bits);
    }

    /** tv_read: past the visible screen it answers 0. */
    method Read(offset: nat) returns (v: word)
      requires Valid() && offset < TV_WORDS
      ensures v == ReadWord(bitmap[..], offset)
    {
      var at := 32 * offset;
      if at > WIDTH * HEIGHT {
        return 0;
      }
      v := 0;
      for i := 0 to 32
        invariant v == LowBits(bitmap[..], at, i)
      {
        LowBitsNext(bitmap[..], at, i);
        if bitmap[at + i] == BLACK {
          v := v + Pow2(i);
        }
      }
    }

    /** An exposed window is given the whole image. */
    method Expose()
      requires Valid() && (update == NOTHING || Pending(update))
      modifies window
      ensures Valid() && Tracked() && window[..] == bitmap[..WIDTH * HEIGHT]
    {
      forall p | 0 <= p < WIDTH * HEIGHT {
        window[p] := bitmap[p];
      }
    }

    /** send_accumulated_updates: the pending rectangle, as far as it is visible, is
        copied to the window. */
    method SendUpdates()
      requires Valid() && Tracked()
      modifies this, window
      ensures Valid() && Tracked() && update == NOTHING
      ensures window[..] == bitmap[..WIDTH * HEIGHT]
    {
      if Pending(update) {
        forall p | 0 <= p < WIDTH * HEIGHT && Covers(update, p % WIDTH, p / WIDTH) {
          window[p] := bitmap[p];
        }
      }
      update := NOTHING;
    }
  }

  lemma DrawnIs(was: seq<word>, now: seq<word>, offset: nat, bits: word)
    requires |now| == |was| && 32 * offset + 32 <= |was|
    requires forall j :: 0 <= j < 32 ==> now[32 * offset + j] == Pixel(bits, j)
    requires forall p :: 0 <= p < |was| && !(32 * offset <= p < 32 * offset + 32) ==> now[p] == was[p]
    ensures now == Drawn(was, offset, bits)
  {
    hide Pixel;
    var at, drawn := 32 * offset, Drawn(was, offset, bits);
    forall p | 0 <= p < |was| ensures now[p] == drawn[p] {
      if at <= p < at + 32 { assert now[at + (p - at)] == Pixel(bits, p - at); }
    }
  }

  lemma SegmentInLine(offset: nat)
    ensures (32 * offset) % WIDTH + 32 <= WIDTH
  {
    var q, r := offset / 24, offset % 24;
    assert 32 * offset == 768 * q + 32 * r;
  }

  lemma PixelInSegment(offset: nat, p: nat)
    requires 32 * offset <= p < 32 * offset + 32
    ensures p / WIDTH == (32 * offset) / WIDTH
    ensures (32 * offset) % WIDTH <= p % WIDTH < (32 * offset) % WIDTH + 32
  {
    var q, r := offset / 24, offset % 24;
    assert 32 * offset == 768 * q + 32 * r;
    DivModUnique(32 * offset, WIDTH, q, 32 * r);
    DivModUnique(p, WIDTH, q, 32 * r + (p - 32 * offset));
  }

  lemma ShrNone(x: nat)
    ensures Shr(x, 0) == x
  {
  }

  lemma {:induction false} ShrNext(x: nat, n: nat)
    ensures Shr(x, n + 1) == Shr(x, n) / 2
    decreases n
  {
    if n > 0 { ShrNext(x / 2, n - 1); }
  }

  // ---------------------------------------------------------------------
  // Reading what was written

  /** The low k bits that the pixels from `at` on stand for. */
  function LowBits(bitmap: seq<word>, at: nat, k: nat): nat
    requires at + k <= |bitmap|
    decreases k
  {
    if k == 0 then 0
    else LowBits(bitmap, at, k - 1) + (if bitmap[at + k - 1] == BLACK then Pow2(k - 1) else 0)
  }

  lemma {:induction false} LowBitsFit(bitmap: seq<word>, at: nat, k: nat)
    requires at + k <= |bitmap|
    ensures LowBits(bitmap, at, k) < Pow2(k)
    decreases k
  {
    if k > 0 { LowBitsFit(bitmap, at, k - 1); }
  }

  lemma LowBitsNext(bitmap: seq<word>, at: nat, i: nat)
    requires i < 32 && at + 32 <= |bitmap|
    ensures LowBits(bitmap, at, i + 1) == LowBits(bitmap, at, i) + (if bitmap[at + i] == BLACK then Pow2(i) else 0)
    ensures LowBits(bitmap, at, i + 1) < 0x1_0000_0000
  {
    LowBitsFit(bitmap, at, i + 1);
    PowerFits(i + 1);
  }

  function ReadWord(bitmap: seq<word>, offset: nat): word
    requires 32 * offset + 32 <= |bitmap|
  {
    if 32 * offset > WIDTH * HEIGHT then 0
    else
      LowBitsFit(bitmap, 32 * offset, 32); Pow2Is32();
      LowBits(bitmap, 32 * offset, 32)
  }

  /** Drawing a word and reading it back. */
  lemma {:induction false} DrawnBits(bitmap: seq<word>, offset: nat, bits: word, k: nat)
    requires 32 * offset + 32 <= |bitmap| && k <= 32
    ensures LowBits(Drawn(bitmap, offset, bits), 32 * offset, k) == bits % Pow2(k)
    decreases k
  {
    if k > 0 {
      DrawnBits(bitmap, offset, bits, k - 1);
      TopBit(bits, k - 1);
      assert Drawn(bitmap, offset, bits)[32 * offset + (k - 1)] == Pixel(bits, k - 1);
    }
  }

  /** The low k + 1 bits are the low k bits and bit k. */
  lemma {:induction false} TopBit(x: nat, k: nat)
    ensures x % Pow2(k + 1) == x % Pow2(k) + (if Bit(x, k) then Pow2(k) else 0)
    decreases k
  {
    ModDouble(x, Pow2(k));
    if k > 0 {
      ModDouble(x, Pow2(k - 1));
      TopBit(x / 2, k - 1);
    }
  }

  lemma {:induction false} SamePixels(a: seq<word>, b: seq<word>, at: nat, k: nat)
    requires at + k <= |a| && |a| == |b| && forall j :: at <= j < at + k ==> a[j] == b[j]
    ensures LowBits(a, at, k) == LowBits(b, at, k)
    decreases k
  {
    if k > 0 { SamePixels(a, b, at, k - 1); }
  }

  /** Each of the 32 pixels is black for a one and white for a zero, from the lowest bit. */
  lemma DrawnPixels(bitmap: seq<word>, offset: nat, bits: word, i: nat)
    requires 32 * offset + 32 <= |bitmap| && i < 32
    ensures Drawn(bitmap, offset, bits)[32 * offset + i] == if Bit(bits, i) then 0 else 0xFF_FFFF
  {
  }

  /** A word drawn is read back, if it starts on the screen (one word past it
      included), and 0 otherwise; every other word reads as before. */
  lemma ReadAfterWrite(bitmap: seq<word>, offset: nat, bits: word, offset': nat)
    requires 32 * offset + 32 <= |bitmap| && 32 * offset' + 32 <= |bitmap|
    ensures |Drawn(bitmap, offset, bits)| == |bitmap|
    ensures ReadWord(Drawn(bitmap, offset, bits), offset')
         == if offset' != offset then ReadWord(bitmap, offset')
            else if 32 * offset <= 768 * 897 then bits else 0
  {
    if offset' == offset {
      DrawnBits(bitmap, offset, bits, 32);
      Pow2Is32();
    } else {
      SamePixels(Drawn(bitmap, offset, bits), bitmap, 32 * offset', 32);
    }
  }
}
