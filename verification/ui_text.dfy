/** The small text and colour helpers of the UI renderer
    (src/Melkam/ui/Ui.cpp): splitting a tab bar's `;`-separated item list,
    and packing four colour bytes into the 32-bit integer the widget style
    table stores. */
module UiText {
  import opened Seqs

  // ---------------------------------------------------------------------
  // Tab bar items

  /** The parts of a tab list glued back together with `;` between them.
      No parts and one empty part both give the empty string. */
  function Join(ps: seq<string>): string
    decreases |ps|
  {
    if ps == [] then []
    else if |ps| == 1 then ps[0]
    else Join(ps[..|ps| - 1]) + [';'] + ps[|ps| - 1]
  }

  predicate NoSeparator(p: string) {
    ';' !in p
  }

  /** The tab bar's label split. Every `;` ends a part; the text after the
      last one becomes a part when it is non-empty or when the list holds a
      `;` at all. So the empty list gives no tabs, `"a;"` gives `"a"` and
      an empty last tab, and otherwise there is one tab more than there are
      separators. */
  method SplitItems(items: string) returns (parts: seq<string>)
    ensures Join(parts) == items
    ensures forall p | p in parts :: NoSeparator(p)
    ensures |parts| == if items == [] then 0 else Count(items, ';') + 1
  {
    parts := [];
    var current: string := [];
    var i := 0;
    while i < |items|
      invariant 0 <= i <= |items|
      invariant Join(parts + [current]) == items[..i]
      invariant NoSeparator(current) && forall p | p in parts :: NoSeparator(p)
      invariant |parts| == Count(items[..i], ';')
    {
      var ch := items[i];
      CountSnoc(items[..i], ';', ch);
      assert items[..i + 1] == items[..i] + [ch];
      if ch == ';' {
        JoinSnoc(parts + [current], []);
        parts := parts + [current];
        current := [];
      } else {
        JoinGrowLast(parts, current, ch);
        current := current + [ch];
      }
      i := i + 1;
    }
    assert items[..i] == items;
    if current != [] || ';' in items {
      parts := parts + [current];
    } else {
      CountAbsent(items, ';');
      assert parts == [];
    }
  }

  lemma JoinSnoc(ps: seq<string>, c: string)
    requires ps != []
    ensures Join(ps + [c]) == Join(ps) + [';'] + c
  {
    assert (ps + [c])[..|ps|] == ps;
  }

  lemma JoinGrowLast(ps: seq<string>, c: string, ch: char)
    ensures Join(ps + [c + [ch]]) == Join(ps + [c]) + [ch]
  {
    if ps != [] {
      JoinSnoc(ps, c + [ch]);
      JoinSnoc(ps, c);
    }
  }

  lemma {:induction false} CountSnoc<T>(xs: seq<T>, x: T, y: T)
    ensures Count(xs + [y], x) == Count(xs, x) + (if y == x then 1 else 0)
    decreases |xs|
  {
    if xs != [] {
      assert (xs + [y])[1..] == xs[1..] + [y];
      CountSnoc(xs[1..], x, y);
    }
  }

  lemma {:induction false} CountAbsent<T>(xs: seq<T>, x: T)
    ensures x !in xs <==> Count(xs, x) == 0
    decreases |xs|
  {
    if xs != [] {
      CountAbsent(xs[1..], x);
      assert xs == [xs[0]] + xs[1..];
    }
  }

  /** The three facts SplitItems states fix its result: two separator-free
      part lists of the same length that join to the same text are equal. */
  lemma {:induction false} JoinUnique(ps: seq<string>, qs: seq<string>)
    requires |ps| == |qs|
    requires forall p | p in ps :: NoSeparator(p)
    requires forall q | q in qs :: NoSeparator(q)
    requires Join(ps) == Join(qs)
    ensures ps == qs
    decreases |ps|
  {
    if |ps| > 1 {
      var n := |ps| - 1;
      var t := Join(ps);
      var x, y := ps[n], qs[n];
      assert x in ps && y in qs;
      var a, b := Join(ps[..n]), Join(qs[..n]);
      assert t == a + [';'] + x && t == b + [';'] + y;
      LastPartsAgree(t, a, x, b, y);
      assert ps[..n] + [x] == ps && qs[..n] + [y] == qs;
      assert forall p | p in ps[..n] :: p in ps;
      assert forall q | q in qs[..n] :: q in qs;
      JoinUnique(ps[..n], qs[..n]);
    }
  }

  /** The part after the last separator is the same however the text was
      split. */
  lemma LastPartsAgree(t: string, a: string, x: string, b: string, y: string)
    requires t == a + [';'] + x && t == b + [';'] + y
    requires NoSeparator(x) && NoSeparator(y)
    ensures x == y && a == b
  {
    SeparatorBeforeLast(t, a, x);
    SeparatorBeforeLast(t, b, y);
    assert |x| == |y|;
    assert x == t[|t| - |x|..] == y;
    assert a == t[..|t| - |x| - 1] == b;
  }

  /** In `a + ";" + x` with no separator in `x`, the last separator sits
      just before `x`. */
  lemma SeparatorBeforeLast(t: string, a: string, x: string)
    requires t == a + [';'] + x && NoSeparator(x)
    ensures t[|t| - |x| - 1] == ';'
    ensures forall k | |t| - |x| <= k < |t| :: t[k] != ';'
  {
    forall k | |t| - |x| <= k < |t| ensures t[k] != ';' {
      assert t[k] == x[k - (|t| - |x|)];
    }
  }

  // ---------------------------------------------------------------------
  // Colours

  type byte = bv8

  /** `packColor`: red in the top byte, then green, blue and alpha. The
      source shifts `int`s, so the word is read back as a signed 32-bit
      value; that reading is `Int32Of`. */
  function PackColor(r: byte, g: byte, b: byte, a: byte): (c: bv32)
    ensures Unpack(c) == (r, g, b, a)
  {
    (r as bv32 << 24) | (g as bv32 << 16) | (b as bv32 << 8) | a as bv32
  }

  /** The four bytes of a packed colour, red first. */
  function Unpack(c: bv32): (r: (byte, byte, byte, byte))
  {
    ((c >> 24) as byte, ((c >> 16) & 0xFF) as byte, ((c >> 8) & 0xFF) as byte, (c & 0xFF) as byte)
  }

  /** Packing loses nothing: every 32-bit word is the packing of its bytes. */
  lemma PackUnpack(c: bv32)
    ensures var (r, g, b, a) := Unpack(c); PackColor(r, g, b, a) == c
  {
  }

  /** The signed value of a word, as the source's `int` holds it. */
  function Int32Of(c: bv32): (v: int)
    ensures -0x8000_0000 <= v < 0x8000_0000
    ensures v < 0 <==> c as int >= 0x8000_0000
    ensures c as int == if v < 0 then v + 0x1_0000_0000 else v
  {
    var u := c as int;
    if u < 0x8000_0000 then u else u - 0x1_0000_0000
  }

  /** A colour reads as a negative `int` exactly when its red byte is 128 or
      more. */
  lemma NegativeWhenRedHigh(r: byte, g: byte, b: byte, a: byte)
    ensures Int32Of(PackColor(r, g, b, a)) < 0 <==> r >= 128
  {
    var c := PackColor(r, g, b, a);
    assert (c >> 24) as byte == r;
    assert c >= 0x8000_0000 <==> (c >> 24) >= 0x80;
    assert c as int >= 0x8000_0000 <==> c >= 0x8000_0000;
  }

  /** Two of the theme's colours, as the style table stores them. */
  lemma ThemeColours()
    ensures Int32Of(PackColor(232, 236, 245, 255)) == -0x1713_0A01
    ensures Int32Of(PackColor(56, 122, 214, 255)) == 0x387A_D6FF
  {
  }
}
