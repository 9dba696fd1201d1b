/**
 * The logo generator's output step (src/generator.cpp, `main`): the packed
 * bitmap is written out as a C++ header, one binary literal per packed byte.
 * The text is returned as a string; opening and writing the file is not modelled.
 */
module HeaderEmitter {
  import opened Options
  import opened Bits
  import opened BitPacking

  // ---------------------------------------------------------------------------
  // One byte as the eight digits `std::bitset<8>` prints, most significant first

  predicate IsBinaryDigits(s: string) {
    forall k :: 0 <= k < |s| ==> s[k] == '0' || s[k] == '1'
  }

  function BinaryDigits(b: bv8): (s: string)
    ensures |s| == 8 && IsBinaryDigits(s)
  {
    seq(8, k requires 0 <= k < 8 => if Bit(b, 7 - k) == 1 then '1' else '0')
  }

  /** The value of a string of binary digits, read most significant digit first. */
  function DigitsValue(s: string): bv8 {
    if s == [] then 0
    else (DigitsValue(s[..|s| - 1]) << 1) | (if s[|s| - 1] == '1' then 1 else 0)
  }

  /** Bit `p` of the value of a digit string is its digit `|s| - 1 - p`. */
  lemma {:induction false} DigitsValueBits(s: string)
    requires |s| <= 8 && IsBinaryDigits(s)
    ensures forall p :: 0 <= p < |s| ==> (Bit(DigitsValue(s), p) == 1 <==> s[|s| - 1 - p] == '1')
    ensures forall p :: |s| <= p < 8 ==> Bit(DigitsValue(s), p) == 0
  {
    if s != [] {
      var front := s[..|s| - 1];
      DigitsValueBits(front);
      var d: bv8 := if s[|s| - 1] == '1' then 1 else 0;
      forall p | 0 <= p < 8
        ensures Bit(DigitsValue(s), p) == if p == 0 then d else Bit(DigitsValue(front), p - 1)
      {
        BitOfShiftIn(DigitsValue(front), d, p);
      }
    }
  }

  /** Parsing the eight digits of a byte gives back the byte. */
  lemma DigitsRoundTrip(b: bv8)
    ensures DigitsValue(BinaryDigits(b)) == b
  {
    var s := BinaryDigits(b);
    DigitsValueBits(s);
    forall p | 0 <= p < 8
      ensures Bit(DigitsValue(s), p) == Bit(b, p)
    {
      assert s[7 - p] == '1' <==> Bit(b, p) == 1;
    }
    BitsDetermineByte(DigitsValue(s), b);
  }

  /** Eight binary digits are exactly the digits of their value. */
  lemma DigitsCanonical(s: string)
    requires |s| == 8 && IsBinaryDigits(s)
    ensures BinaryDigits(DigitsValue(s)) == s
  {
    DigitsValueBits(s);
  }

  // ---------------------------------------------------------------------------
  // One bitmap line: indentation, "0b", eight digits, ",\n"

  const Indent: string := "            "
  const LineLength: nat := 24

  function Literal(b: bv8): string {
    "0b" + BinaryDigits(b)
  }

  function Line(b: bv8): (line: string)
    ensures |line| == LineLength
  {
    Indent + Literal(b) + ",\n"
  }

  /** Recognises the text of one binary literal `0bXXXXXXXX`. */
  function ParseLiteral(s: string): Option<bv8> {
    if |s| == 10 && s[..2] == "0b" && IsBinaryDigits(s[2..]) then Some(DigitsValue(s[2..])) else None
  }

  function ParseLine(s: string): Option<bv8> {
    if |s| == LineLength && s[..12] == Indent && s[22..] == ",\n" then ParseLiteral(s[12..22]) else None
  }

  /** A literal denotes `b` exactly when it is the literal rendered for `b`. */
  lemma LiteralParses(s: string, b: bv8)
    ensures ParseLiteral(s) == Some(b) <==> s == Literal(b)
  {
    if s == Literal(b) {
      assert s[2..] == BinaryDigits(b);
      DigitsRoundTrip(b);
    }
    if ParseLiteral(s) == Some(b) {
      DigitsCanonical(s[2..]);
      assert s == s[..2] + s[2..];
    }
  }

  /** A line denotes `b` exactly when it is the line rendered for `b`. */
  lemma LineParses(s: string, b: bv8)
    ensures ParseLine(s) == Some(b) <==> s == Line(b)
  {
    if s == Line(b) {
      var lit := Literal(b);
      SliceInLeft(Indent + lit, ",\n", 0, 12);
      SliceInLeft(Indent + lit, ",\n", 12, 22);
      SliceInRight(Indent, lit, 0, 10);
      assert s[22..] == ",\n";
      LiteralParses(s[12..22], b);
    }
    if ParseLine(s) == Some(b) {
      LiteralParses(s[12..22], b);
      assert s == s[..12] + s[12..22] + s[22..];
    }
  }

  // ---------------------------------------------------------------------------
  // The bitmap body: one line per packed byte, in array order

  function BitmapLines(packed: seq<bv8>): (text: string)
    ensures |text| == LineLength * |packed|
  {
    if packed == [] then "" else BitmapLines(packed[..|packed| - 1]) + Line(packed[|packed| - 1])
  }

  /** Reads the bitmap body back, one 24-character line at a time from the end. */
  function ParseBitmapLines(text: string): Option<seq<bv8>>
    decreases |text|
  {
    if text == [] then Some([])
    else if |text| < LineLength then None
    else match ParseBitmapLines(text[..|text| - LineLength]) {
      case None => None
      case Some(front) =>
        match ParseLine(text[|text| - LineLength..]) {
          case None => None
          case Some(b) => Some(front + [b])
        }
    }
  }

  /** The body reads back as `packed` exactly when it is the body rendered for `packed`. */
  lemma {:induction false} BitmapLinesParse(text: string, packed: seq<bv8>)
    ensures ParseBitmapLines(text) == Some(packed) <==> text == BitmapLines(packed)
    decreases |text|
  {
    if text == BitmapLines(packed) && packed != [] {
      var n := |packed| - 1;
      var front, last := BitmapLines(packed[..n]), Line(packed[n]);
      assert text == front + last;
      assert text[..|text| - LineLength] == front;
      assert text[|text| - LineLength..] == last;
      BitmapLinesParse(text[..|text| - LineLength], packed[..n]);
      LineParses(text[|text| - LineLength..], packed[n]);
      assert packed[..n] + [packed[n]] == packed;
    }
    if ParseBitmapLines(text) == Some(packed) && text != [] {
      var front := text[..|text| - LineLength];
      var last := text[|text| - LineLength..];
      var n := |packed| - 1;
      assert ParseBitmapLines(front) == Some(packed[..n]);
      assert ParseLine(last) == Some(packed[n]);
      BitmapLinesParse(front, packed[..n]);
      LineParses(last, packed[n]);
      assert text == front + last;
    }
  }

  lemma SliceInLeft(a: string, b: string, lo: nat, hi: nat)
    requires lo <= hi <= |a|
    ensures (a + b)[lo..hi] == a[lo..hi]
  {
  }

  lemma SliceInRight(a: string, b: string, lo: nat, hi: nat)
    requires lo <= hi <= |b|
    ensures (a + b)[|a| + lo..|a| + hi] == b[lo..hi]
  {
  }

  /** Line `k` of the body is the literal line of packed byte `k`. */
  lemma {:induction false} BitmapLineAt(packed: seq<bv8>, k: nat)
    requires k < |packed|
    ensures BitmapLines(packed)[LineLength * k..LineLength * k + LineLength] == Line(packed[k])
  {
    var n := |packed| - 1;
    var front, last := BitmapLines(packed[..n]), Line(packed[n]);
    assert BitmapLines(packed) == front + last;
    if k < n {
      BitmapLineAt(packed[..n], k);
      assert packed[..n][k] == packed[k];
      SliceInLeft(front, last, LineLength * k, LineLength * k + LineLength);
    } else {
      SliceInRight(front, last, 0, LineLength);
      assert last[0..LineLength] == last;
    }
  }

  // ---------------------------------------------------------------------------
  // Decimal rendering of `width` and `height`, as `operator<<` prints an unsigned integer

  predicate IsDecimalDigits(s: string) {
    forall k :: 0 <= k < |s| ==> '0' <= s[k] <= '9'
  }

  function DecimalDigit(d: nat): char
    requires d < 10
  {
    ('0' as int + d) as char
  }

  function DecimalString(n: nat): (s: string)
    ensures |s| >= 1 && IsDecimalDigits(s)
    ensures s[0] == '0' ==> n == 0
  {
    if n < 10 then [DecimalDigit(n)] else DecimalString(n / 10) + [DecimalDigit(n % 10)]
  }

  function DecimalValue(s: string): nat
    requires IsDecimalDigits(s)
  {
    if s == [] then 0 else DecimalValue(s[..|s| - 1]) * 10 + (s[|s| - 1] as int - '0' as int)
  }

  /** Reading the printed decimal digits back gives the number. */
  lemma {:induction false} DecimalRoundTrip(n: nat)
    ensures DecimalValue(DecimalString(n)) == n
  {
    var s := DecimalString(n);
    if n >= 10 {
      DecimalRoundTrip(n / 10);
      assert s[..|s| - 1] == DecimalString(n / 10);
    }
  }

  // ---------------------------------------------------------------------------
  // The whole header

  const GuardOpen: string := "#ifndef MAS245_LOGO_BITMAP_H\n"
  const GuardClose: string := "#endif // MAS245_LOGO_BITMAP_H\n"

  /** Everything before the first bitmap line. */
  function Prologue(width: nat, height: nat): string {
    GuardOpen + Declarations(width, height)
  }

  /** The `#define`, the `#include`, the namespaces and the two size constants. */
  function Declarations(width: nat, height: nat): string {
    "#define MAS245_LOGO_BITMAP_H\n\n"
    + "#include <avr/pgmspace.h>\n\n"
    + "namespace images {\n"
    + "    namespace mas245splash {\n"
    + "        constexpr uint8_t width{" + DecimalString(width) + "};\n\n"
    + "        constexpr uint8_t height{" + DecimalString(height) + "};\n"
    + "        static const uint8_t PROGMEM bitmap[] = {\n"
  }

  /** Everything after the last bitmap line. */
  const Epilogue: string := Closings + GuardClose
  const Closings: string := "        };\n\n" + "    };\n\n" + "};\n\n"

  /**
   * The header `main` writes: the fixed template around one bitmap line per
   * packed byte, so its size grows by exactly one line per byte.
   */
  function HeaderText(width: nat, height: nat, packed: seq<bv8>): (text: string)
    ensures |text| == |Prologue(width, height)| + LineLength * |packed| + |Epilogue|
  {
    Prologue(width, height) + BitmapLines(packed) + Epilogue
  }

  /** The header opens with the include guard and closes with its `#endif`. */
  lemma HeaderGuards(width: nat, height: nat, packed: seq<bv8>)
    ensures var text := HeaderText(width, height, packed);
      |text| >= |GuardOpen| + |GuardClose| &&
      text[..|GuardOpen|] == GuardOpen && text[|text| - |GuardClose|..] == GuardClose
  {
    var rest := Declarations(width, height) + BitmapLines(packed) + Closings;
    assert HeaderText(width, height, packed) == GuardOpen + rest + GuardClose;
  }

  /** Line `k` after the prologue is the literal line of packed byte `k`. */
  lemma HeaderLineAt(width: nat, height: nat, packed: seq<bv8>, k: nat)
    requires k < |packed|
    ensures var start := |Prologue(width, height)| + LineLength * k;
      HeaderText(width, height, packed)[start..start + LineLength] == Line(packed[k])
  {
    BitmapLineAt(packed, k);
    var pro, lines := Prologue(width, height), BitmapLines(packed);
    assert HeaderText(width, height, packed) == pro + (lines + Epilogue);
    SliceInRight(pro, lines + Epilogue, LineLength * k, LineLength * k + LineLength);
    SliceInLeft(lines, Epilogue, LineLength * k, LineLength * k + LineLength);
  }

  /** The text between the prologue and the epilogue reads back as exactly the packed bytes. */
  lemma HeaderBitmap(width: nat, height: nat, packed: seq<bv8>)
    ensures var text := HeaderText(width, height, packed);
      |Prologue(width, height)| + |Epilogue| <= |text| &&
      ParseBitmapLines(text[|Prologue(width, height)|..|text| - |Epilogue|]) == Some(packed)
  {
    var text := HeaderText(width, height, packed);
    assert text[|Prologue(width, height)|..|text| - |Epilogue|] == BitmapLines(packed);
    BitmapLinesParse(BitmapLines(packed), packed);
  }

  /**
   * The emission loop of `main`: one line per packed byte in array order,
   * between the prologue and the epilogue.
   */
  method EmitHeader(width: nat, height: nat, packed: seq<bv8>) returns (text: string)
    ensures text == HeaderText(width, height, packed)
  {
    var lines := "";
    for i := 0 to |packed|
      invariant lines == BitmapLines(packed[..i])
    {
      assert packed[..i + 1][..i] == packed[..i];
      lines := lines + Line(packed[i]);
    }
    assert packed[..|packed|] == packed;
    text := Prologue(width, height) + lines + Epilogue;
  }

  /**
   * `main`: convert the exported raster, pack it and render the header. The
   * header's bitmap reads back as the packed bytes, which unpack to the raster.
   */
  method GenerateHeader(width: nat, height: nat, headerData: seq<bv8>) returns (text: string)
    requires |headerData| % 8 == 0 && IsBinary(headerData)
    ensures text == HeaderText(width, height, Packed(headerData))
    ensures |Prologue(width, height)| + |Epilogue| <= |text|
    ensures ParseBitmapLines(text[|Prologue(width, height)|..|text| - |Epilogue|]) == Some(Packed(headerData))
    ensures Unpack(Packed(headerData)) == headerData
  {
    var dataArray := ToArray(headerData);
    assert dataArray == headerData;
    var compressed := CompressBinaryArray(dataArray);
    text := EmitHeader(width, height, compressed);
    HeaderBitmap(width, height, compressed);
  }
}
