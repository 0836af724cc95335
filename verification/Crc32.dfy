/** crc32part: the table-driven CRC, against the bit-at-a-time shift register with the same
    reflected polynomial, and the errors it is sure to detect. */
module Crc32 {
  import opened CrcRegister

  const POLY: bv32 := 0xedb88320

  const TABLE: seq<seq<bv32>> := [
    [0x00000000, 0x77073096, 0xee0e612c, 0x990951ba, 0x076dc419, 0x706af48f, 0xe963a535, 0x9e6495a3],
    [0x0edb8832, 0x79dcb8a4, 0xe0d5e91e, 0x97d2d988, 0x09b64c2b, 0x7eb17cbd, 0xe7b82d07, 0x90bf1d91],
    [0x1db71064, 0x6ab020f2, 0xf3b97148, 0x84be41de, 0x1adad47d, 0x6ddde4eb, 0xf4d4b551, 0x83d385c7],
    [0x136c9856, 0x646ba8c0, 0xfd62f97a, 0x8a65c9ec, 0x14015c4f, 0x63066cd9, 0xfa0f3d63, 0x8d080df5],
    [0x3b6e20c8, 0x4c69105e, 0xd56041e4, 0xa2677172, 0x3c03e4d1, 0x4b04d447, 0xd20d85fd, 0xa50ab56b],
    [0x35b5a8fa, 0x42b2986c, 0xdbbbc9d6, 0xacbcf940, 0x32d86ce3, 0x45df5c75, 0xdcd60dcf, 0xabd13d59],
    [0x26d930ac, 0x51de003a, 0xc8d75180, 0xbfd06116, 0x21b4f4b5, 0x56b3c423, 0xcfba9599, 0xb8bda50f],
    [0x2802b89e, 0x5f058808, 0xc60cd9b2, 0xb10be924, 0x2f6f7c87, 0x58684c11, 0xc1611dab, 0xb6662d3d],
    [0x76dc4190, 0x01db7106, 0x98d220bc, 0xefd5102a, 0x71b18589, 0x06b6b51f, 0x9fbfe4a5, 0xe8b8d433],
    [0x7807c9a2, 0x0f00f934, 0x9609a88e, 0xe10e9818, 0x7f6a0dbb, 0x086d3d2d, 0x91646c97, 0xe6635c01],
    [0x6b6b51f4, 0x1c6c6162, 0x856530d8, 0xf262004e, 0x6c0695ed, 0x1b01a57b, 0x8208f4c1, 0xf50fc457],
    [0x65b0d9c6, 0x12b7e950, 0x8bbeb8ea, 0xfcb9887c, 0x62dd1ddf, 0x15da2d49, 0x8cd37cf3, 0xfbd44c65],
    [0x4db26158, 0x3ab551ce, 0xa3bc0074, 0xd4bb30e2, 0x4adfa541, 0x3dd895d7, 0xa4d1c46d, 0xd3d6f4fb],
    [0x4369e96a, 0x346ed9fc, 0xad678846, 0xda60b8d0, 0x44042d73, 0x33031de5, 0xaa0a4c5f, 0xdd0d7cc9],
    [0x5005713c, 0x270241aa, 0xbe0b1010, 0xc90c2086, 0x5768b525, 0x206f85b3, 0xb966d409, 0xce61e49f],
    [0x5edef90e, 0x29d9c998, 0xb0d09822, 0xc7d7a8b4, 0x59b33d17, 0x2eb40d81, 0xb7bd5c3b, 0xc0ba6cad],
    [0xedb88320, 0x9abfb3b6, 0x03b6e20c, 0x74b1d29a, 0xead54739, 0x9dd277af, 0x04db2615, 0x73dc1683],
    [0xe3630b12, 0x94643b84, 0x0d6d6a3e, 0x7a6a5aa8, 0xe40ecf0b, 0x9309ff9d, 0x0a00ae27, 0x7d079eb1],
    [0xf00f9344, 0x8708a3d2, 0x1e01f268, 0x6906c2fe, 0xf762575d, 0x806567cb, 0x196c3671, 0x6e6b06e7],
    [0xfed41b76, 0x89d32be0, 0x10da7a5a, 0x67dd4acc, 0xf9b9df6f, 0x8ebeeff9, 0x17b7be43, 0x60b08ed5],
    [0xd6d6a3e8, 0xa1d1937e, 0x38d8c2c4, 0x4fdff252, 0xd1bb67f1, 0xa6bc5767, 0x3fb506dd, 0x48b2364b],
    [0xd80d2bda, 0xaf0a1b4c, 0x36034af6, 0x41047a60, 0xdf60efc3, 0xa867df55, 0x316e8eef, 0x4669be79],
    [0xcb61b38c, 0xbc66831a, 0x256fd2a0, 0x5268e236, 0xcc0c7795, 0xbb0b4703, 0x220216b9, 0x5505262f],
    [0xc5ba3bbe, 0xb2bd0b28, 0x2bb45a92, 0x5cb36a04, 0xc2d7ffa7, 0xb5d0cf31, 0x2cd99e8b, 0x5bdeae1d],
    [0x9b64c2b0, 0xec63f226, 0x756aa39c, 0x026d930a, 0x9c0906a9, 0xeb0e363f, 0x72076785, 0x05005713],
    [0x95bf4a82, 0xe2b87a14, 0x7bb12bae, 0x0cb61b38, 0x92d28e9b, 0xe5d5be0d, 0x7cdcefb7, 0x0bdbdf21],
    [0x86d3d2d4, 0xf1d4e242, 0x68ddb3f8, 0x1fda836e, 0x81be16cd, 0xf6b9265b, 0x6fb077e1, 0x18b74777],
    [0x88085ae6, 0xff0f6a70, 0x66063bca, 0x11010b5c, 0x8f659eff, 0xf862ae69, 0x616bffd3, 0x166ccf45],
    [0xa00ae278, 0xd70dd2ee, 0x4e048354, 0x3903b3c2, 0xa7672661, 0xd06016f7, 0x4969474d, 0x3e6e77db],
    [0xaed16a4a, 0xd9d65adc, 0x40df0b66, 0x37d83bf0, 0xa9bcae53, 0xdebb9ec5, 0x47b2cf7f, 0x30b5ffe9],
    [0xbdbdf21c, 0xcabac28a, 0x53b39330, 0x24b4a3a6, 0xbad03605, 0xcdd70693, 0x54de5729, 0x23d967bf],
    [0xb3667a2e, 0xc4614ab8, 0x5d681b02, 0x2a6f2b94, 0xb40bbe37, 0xc30c8ea1, 0x5a05df1b, 0x2d02ef8d]
  ]

  // crc32_tab[i]; the rows are the lines of the source's initialiser.
  function Entry(i: nat): bv32
    requires i < 256
  {
    assert |TABLE| == 32;
    var row := TABLE[i / 8];
    assert |row| == 8;
    row[i % 8]
  }

  // One shift of a 32-bit word.
  function Step(v: bv32): bv32 {
    if v & 1 == 1 then (v >> 1) ^ POLY else v >> 1
  }

  function Step8(v: bv32): bv32 {
    Step(Step(Step(Step(Step(Step(Step(Step(v))))))))
  }

  lemma Rows0(v: bv32)
    requires 0 <= v < 32
    ensures Entry(v as int) == Step8(v)
  {
  }

  lemma Rows1(v: bv32)
    requires 32 <= v < 64
    ensures Entry(v as int) == Step8(v)
  {
  }

  lemma Rows2(v: bv32)
    requires 64 <= v < 96
    ensures Entry(v as int) == Step8(v)
  {
  }

  lemma Rows3(v: bv32)
    requires 96 <= v < 128
    ensures Entry(v as int) == Step8(v)
  {
  }

  lemma Rows4(v: bv32)
    requires 128 <= v < 160
    ensures Entry(v as int) == Step8(v)
  {
  }

  lemma Rows5(v: bv32)
    requires 160 <= v < 192
    ensures Entry(v as int) == Step8(v)
  {
  }

  lemma Rows6(v: bv32)
    requires 192 <= v < 224
    ensures Entry(v as int) == Step8(v)
  {
  }

  lemma Rows7(v: bv32)
    requires 224 <= v < 256
    ensures Entry(v as int) == Step8(v)
  {
  }

  // Every table entry is eight shifts of its index.
  lemma TableIsEightSteps(v: bv32)
    requires v < 256
    ensures Entry(v as int) == Step8(v)
  {
    if v < 32 { Rows0(v); } else if v < 64 { Rows1(v); }
    else if v < 96 { Rows2(v); } else if v < 128 { Rows3(v); }
    else if v < 160 { Rows4(v); } else if v < 192 { Rows5(v); }
    else if v < 224 { Rows6(v); } else { Rows7(v); }
  }

  // A word as register contents.
  function Mask(i: nat): bv32
    requires i < 32
  {
    (1 as bv32) << i
  }

  predicate Has(v: bv32, m: bv32) {
    v & m != 0
  }

  predicate BitAt(v: bv32, i: nat)
    requires i < 32
  {
    Has(v, Mask(i))
  }

  function Word(v: bv32): (r: Bits)
    ensures |r| == 32 && forall i :: 0 <= i < 32 ==> r[i] == BitAt(v, i)
  {
    seq(32, i requires 0 <= i < 32 => BitAt(v, i))
  }

  lemma MaskSingle(i: nat)
    requires i < 32
    ensures Mask(i) & (Mask(i) - 1) == 0 && Mask(i) != 0
    ensures Has(0xff, Mask(i)) == (i < 8)
  {
  }

  lemma MaskNext(i: nat)
    requires i < 31
    ensures Mask(i + 1) == Mask(i) << 1 && Mask(i) < 0x8000_0000
  {
  }

  lemma MaskEnds()
    ensures Mask(0) == 1 && Mask(31) == 0x8000_0000
  {
  }

  lemma MaskEighth(i: nat)
    requires i < 24
    ensures Mask(i + 8) == Mask(i) << 8 && Mask(i) < 0x100_0000
  {
  }

  lemma HasXor(a: bv32, b: bv32, m: bv32)
    requires m & (m - 1) == 0
    ensures Has(a ^ b, m) == (Has(a, m) != Has(b, m))
  {
  }

  lemma HasShift(v: bv32, m: bv32)
    requires m < 0x8000_0000
    ensures Has(v >> 1, m) == Has(v, m << 1)
  {
  }

  lemma HasShift8(v: bv32, m: bv32)
    requires m < 0x100_0000
    ensures Has(v >> 8, m) == Has(v, m << 8)
  {
  }

  lemma HasTop(v: bv32)
    ensures !Has(v >> 1, 0x8000_0000)
    ensures Has(v, 1) == (v & 1 == 1)
    ensures Has(POLY, 0x8000_0000)
  {
  }

  lemma HasLow(v: bv32, m: bv32)
    requires m & (m - 1) == 0
    ensures Has(v & 0xff, m) == (Has(0xff, m) && Has(v, m))
  {
  }

  lemma WordXor(a: bv32, b: bv32)
    ensures Word(a ^ b) == Xor(Word(a), Word(b))
  {
    forall i | 0 <= i < 32 ensures Word(a ^ b)[i] == Xor(Word(a), Word(b))[i] {
      MaskSingle(i);
      HasXor(a, b, Mask(i));
    }
  }

  lemma WordShift(v: bv32)
    ensures Word(v >> 1) == Down(Word(v))
  {
    HasTop(v);
    MaskEnds();
    forall i | 0 <= i < 32 ensures Word(v >> 1)[i] == Down(Word(v))[i] {
      if i < 31 {
        MaskNext(i);
        HasShift(v, Mask(i));
      }
    }
  }

  lemma WordStep(v: bv32)
    ensures Word(Step(v)) == Shift(Word(POLY), Word(v))
  {
    WordShift(v);
    WordXor(v >> 1, POLY);
    MaskEnds();
    HasTop(v);
  }

  lemma Smaller(x: bv32)
    requires x != 0 && x & 1 != 1
    ensures x >> 1 != 0 && x >> 1 < x
  {
  }

  lemma HigherBit(x: bv32, i: nat) returns (j: nat)
    requires i < 32 && BitAt(x >> 1, i)
    ensures j < 32 && BitAt(x, j)
  {
    HasTop(x);
    MaskEnds();
    j := i + 1;
    if i < 31 {
      MaskNext(i);
      HasShift(x, Mask(i));
    }
  }

  // Two words with the same bits are the same word.
  lemma {:induction false} FindBit(x: bv32) returns (i: nat)
    requires x != 0
    ensures i < 32 && BitAt(x, i)
    decreases x
  {
    HasTop(x);
    MaskEnds();
    if x & 1 == 1 {
      i := 0;
    } else {
      Smaller(x);
      i := FindBit(x >> 1);
      i := HigherBit(x, i);
    }
  }

  lemma XorNonzero(a: bv32, b: bv32)
    requires a != b
    ensures a ^ b != 0
  {
  }

  lemma WordInjective(a: bv32, b: bv32)
    requires a != b
    ensures Word(a) != Word(b)
  {
    XorNonzero(a, b);
    WordXor(a, b);
    var i := FindBit(a ^ b);
    assert Word(a ^ b)[i];
    assert Word(a)[i] != Word(b)[i];
  }

  // A message as bits, each byte from its low end.
  function ByteBits(b: bv8): (bits: Bits)
    ensures |bits| == 8
  {
    Word(b as bv32)[..8]
  }

  function MessageBits(msg: seq<bv8>): (bits: Bits)
    ensures |bits| == 8 * |msg|
  {
    if msg == [] then [] else MessageBits(msg[..|msg| - 1]) + ByteBits(msg[|msg| - 1])
  }

  lemma Bounded(v: bv32)
    requires v < 256
    ensures v as int < 256
  {
  }

  function Index(x: bv32): (i: nat)
    ensures i < 256
  {
    Bounded(x & 0xff);
    (x & 0xff) as nat
  }

  // The register form of the CRC polynomial.
  function Poly(): Bits {
    Word(POLY)
  }

  // The exponents of the generator of IEEE 802.3, section 3.2.9, below x^32.
  const EXPONENTS := {0, 1, 2, 4, 5, 7, 8, 10, 11, 12, 16, 22, 23, 26}

  // Bit i of the register stands for x^(31 - i).
  lemma Generator()
    ensures forall i :: 0 <= i < 32 ==> (Poly()[i] <==> 31 - i in EXPONENTS)
  {
    forall i | 0 <= i < 32 ensures BitAt(POLY, i) <==> 31 - i in EXPONENTS { }
  }

  lemma QuietStep(v: bv32, n: nat)
    ensures Run(Poly(), Word(v), Zeros(n + 1)) == Run(Poly(), Word(Step(v)), Zeros(n))
    ensures Run(Poly(), Word(v), Zeros(0)) == Word(v)
  {
    var r := Word(v);
    assert r[0 := r[0] != false] == r;
    assert Zeros(n + 1)[1..] == Zeros(n);
    WordStep(v);
  }

  lemma WordStep4(v: bv32)
    ensures Word(Step(Step(Step(Step(v))))) == Run(Poly(), Word(v), Zeros(4))
  {
    QuietStep(v, 3);
    QuietStep(Step(v), 2);
    QuietStep(Step(Step(v)), 1);
    QuietStep(Step(Step(Step(v))), 0);
  }

  lemma WordStep8(v: bv32)
    ensures Word(Step8(v)) == Run(Poly(), Word(v), Zeros(8))
  {
    var v4 := Step(Step(Step(Step(v))));
    WordStep4(v);
    WordStep4(v4);
    assert Zeros(8) == Zeros(4) + Zeros(4);
    RunAppend(Poly(), Word(v), Zeros(4), Zeros(4));
  }

  // The low byte of a word, and what is left of it.
  lemma LowWord(x: bv32, l: bv32)
    requires l == x & 0xff
    ensures forall i :: 0 <= i < 32 ==> Word(l)[i] == (i < 8 && Word(x)[i])
  {
    forall i | 0 <= i < 32 ensures Word(l)[i] == (i < 8 && Word(x)[i]) {
      MaskSingle(i);
      HasLow(x, Mask(i));
    }
  }

  lemma MaskHigh(i: nat)
    requires 24 <= i < 32
    ensures Mask(i) & 0xffffff == 0
  {
  }

  lemma HasShift8Top(v: bv32, m: bv32)
    requires m & 0xffffff == 0
    ensures !Has(v >> 8, m)
  {
  }

  lemma UpperWord(x: bv32, u: bv32)
    requires u == x >> 8
    ensures Word(u) == Word(x)[8..] + Zeros(8)
  {
    forall i | 0 <= i < 32 ensures Word(u)[i] == (Word(x)[8..] + Zeros(8))[i] {
      if i < 24 {
        MaskEighth(i);
        HasShift8(x, Mask(i));
      } else {
        MaskHigh(i);
        HasShift8Top(x, Mask(i));
      }
    }
  }

  // Eight shifts of a word, split at its low byte: the byte through the table, the rest
  // straight down.
  lemma SplitWord(x: bv32, l: bv32, h: bv32, u: bv32)
    requires l == x & 0xff && h == x ^ l && u == x >> 8
    ensures Run(Poly(), Word(x), Zeros(8)) == Xor(Run(Poly(), Word(l), Zeros(8)), Word(u))
  {
    LowWord(x, l);
    WordXor(x, l);
    UpperWord(x, u);
    assert Xor(Word(l), Word(h)) == Word(x);
    RunLinear(Poly(), Word(l), Word(h), Zeros(8), Zeros(8));
    assert Xor(Zeros(8), Zeros(8)) == Zeros(8);
    QuietShift(Poly(), Word(h), 8);
    assert Word(h)[8..] == Word(x)[8..];
  }

  lemma TableWord(x: bv32, l: bv32)
    requires l == x & 0xff
    ensures Word(Entry(Index(x))) == Run(Poly(), Word(l), Zeros(8))
  {
    TableIsEightSteps(l);
    WordStep8(l);
  }

  lemma TablePass(x: bv32, l: bv32, h: bv32, u: bv32, e: bv32, v: bv32)
    requires l == x & 0xff && h == x ^ l && u == x >> 8 && e == Entry(Index(x)) && v == e ^ u
    ensures Word(v) == Run(Poly(), Word(x), Zeros(8))
  {
    TableWord(x, l);
    SplitWord(x, l, h, u);
    WordXor(e, u);
  }

  lemma HasByte(w: bv32, m: bv32)
    requires w < 256 && m & (m - 1) == 0
    ensures Has(w, m) == (Has(0xff, m) && Has(w, m))
  {
  }

  lemma BytePadded(w: bv32)
    requires w < 256
    ensures Word(w)[..8] + Zeros(24) == Word(w)
  {
    forall i | 0 <= i < 32 ensures Word(w)[i] == (i < 8 && Word(w)[i]) {
      MaskSingle(i);
      HasByte(w, Mask(i));
    }
  }

  lemma AbsorbByte(c: bv32, w: bv32, x: bv32)
    requires w < 256 && x == c ^ w
    ensures Run(Poly(), Word(c), Word(w)[..8]) == Run(Poly(), Word(x), Zeros(8))
  {
    WordXor(c, w);
    BytePadded(w);
    Absorb(Poly(), Word(c), Word(w)[..8]);
  }

  // One pass of the table loop, v from c, is eight message bits through the shift register.
  // The intermediate words have names: w the message byte, x what it is added to, u the
  // upper part of c and e the table entry.
  ghost predicate TableStep(c: bv32, b: bv8, w: bv32, x: bv32, u: bv32, e: bv32, v: bv32) {
    w == b as bv32 && x == c ^ w && u == c >> 8 && e == Entry(Index(x)) && v == e ^ u
  }

  lemma ByteIsSmall(b: bv8, w: bv32)
    requires w == b as bv32
    ensures w < 256
  {
  }

  lemma LowNames(x: bv32) returns (l: bv32, h: bv32)
    ensures l == x & 0xff && h == x ^ l
  {
    l := x & 0xff;
    h := x ^ l;
  }

  lemma UpperUntouched(c: bv32, w: bv32, x: bv32, u: bv32)
    requires w < 256 && x == c ^ w && u == c >> 8
    ensures u == x >> 8
  {
  }

  lemma PassIsEightShifts(c: bv32, b: bv8, w: bv32, x: bv32, u: bv32, e: bv32, v: bv32)
    requires TableStep(c, b, w, x, u, e, v)
    ensures Word(v) == Run(Poly(), Word(c), ByteBits(b))
  {
    ByteIsSmall(b, w);
    var l, h := LowNames(x);
    UpperUntouched(c, w, x, u);
    TablePass(x, l, h, u, e, v);
    AbsorbByte(c, w, x);
  }

  // The CRC of a message is the register run over all its bits.
  ghost predicate IsCrc(crc: bv32, start: bv32, msg: seq<bv8>) {
    Word(crc) == Run(Poly(), Word(start), MessageBits(msg))
  }

  lemma Extend(crc: bv32, start: bv32, msg: seq<bv8>, b: bv8, w: bv32, x: bv32, u: bv32, e: bv32, v: bv32)
    requires IsCrc(crc, start, msg) && TableStep(crc, b, w, x, u, e, v)
    ensures IsCrc(v, start, msg + [b])
  {
    assert (msg + [b])[..|msg|] == msg;
    PassIsEightShifts(crc, b, w, x, u, e, v);
    RunAppend(Poly(), Word(start), MessageBits(msg), ByteBits(b));
  }

  // crc32_tab[(crc ^ b) & 0xff] ^ (crc >> 8)
  method TableLoopBody(crc: bv32, b: bv8, ghost start: bv32, ghost msg: seq<bv8>) returns (v: bv32)
    requires IsCrc(crc, start, msg)
    ensures IsCrc(v, start, msg + [b])
  {
    var w := b as bv32;
    var x := crc ^ w;
    var u, e := crc >> 8, Entry(Index(x));
    v := e ^ u;
    Extend(crc, start, msg, b, w, x, u, e, v);
  }

  method Crc32Part(src: array<bv8>, len: nat, start: bv32) returns (crc: bv32)
    requires len <= src.Length
    ensures IsCrc(crc, start, src[..len])
  {
    crc := start;
    var i := 0;
    while i < len
      invariant 0 <= i <= len
      invariant IsCrc(crc, start, src[..i])
    {
      assert src[..i + 1] == src[..i] + [src[i]];
      crc := TableLoopBody(crc, src[i], start, src[..i]);
      i := i + 1;
    }
  }

  method Crc32(src: array<bv8>, len: nat) returns (crc: bv32)
    requires len <= src.Length
    ensures IsCrc(crc, 0, src[..len])
  {
    crc := Crc32Part(src, len, 0);
  }

  // There is only one such value, so the contract of Crc32Part pins its result down.
  lemma CrcUnique(crc: bv32, crc': bv32, start: bv32, msg: seq<bv8>)
    requires IsCrc(crc, start, msg) && IsCrc(crc', start, msg)
    ensures crc == crc'
  {
    if crc != crc' { WordInjective(crc, crc'); }
  }

  lemma {:induction false} BitsAppend(m: seq<bv8>, n: seq<bv8>)
    ensures MessageBits(m + n) == MessageBits(m) + MessageBits(n)
    decreases |n|
  {
    if n == [] {
      assert m + n == m;
    } else {
      assert (m + n)[..|m + n| - 1] == m + n[..|n| - 1];
      BitsAppend(m, n[..|n| - 1]);
    }
  }

  // A message may be checked in parts.
  lemma CrcInParts(crc: bv32, middle: bv32, start: bv32, m: seq<bv8>, n: seq<bv8>)
    requires IsCrc(middle, start, m) && IsCrc(crc, middle, n)
    ensures IsCrc(crc, start, m + n)
  {
    BitsAppend(m, n);
    RunAppend(Poly(), Word(start), MessageBits(m), MessageBits(n));
  }

  lemma PolyTop()
    ensures Poly()[31]
  {
    MaskEnds();
    HasTop(0);
  }

  // Different start values stay different over every message.
  lemma CrcStartInjective(crc: bv32, crc': bv32, start: bv32, start': bv32, msg: seq<bv8>)
    requires IsCrc(crc, start, msg) && IsCrc(crc', start', msg) && start != start'
    ensures crc != crc'
  {
    WordInjective(start, start');
    PolyTop();
    StartRecoverable(Poly(), Word(start), Word(start'), MessageBits(msg));
  }

  // Errors confined to 32 consecutive bits, wherever they start, are always detected.
  lemma BitBurstDetected(crc: bv32, crc': bv32, start: bv32, m: seq<bv8>, m': seq<bv8>, p: nat)
    requires IsCrc(crc, start, m) && IsCrc(crc', start, m') && |m| == |m'|
    requires MessageBits(m) != MessageBits(m')
    requires forall i :: 0 <= i < 8 * |m| && !(p <= i < p + 32) ==> MessageBits(m)[i] == MessageBits(m')[i]
    ensures crc != crc'
  {
    PolyTop();
    BurstDetected(Poly(), Word(start), MessageBits(m), MessageBits(m'), p);
  }

  lemma {:induction false} BitsOfByte(m: seq<bv8>, k: nat)
    requires k < |m|
    ensures MessageBits(m)[8 * k..8 * k + 8] == ByteBits(m[k])
    decreases |m|
  {
    if k < |m| - 1 { BitsOfByte(m[..|m| - 1], k); }
  }

  lemma BitOfByte(m: seq<bv8>, i: nat)
    requires i < 8 * |m|
    ensures MessageBits(m)[i] == ByteBits(m[i / 8])[i % 8]
  {
    BitsOfByte(m, i / 8);
    assert MessageBits(m)[8 * (i / 8)..8 * (i / 8) + 8][i % 8] == MessageBits(m)[i];
  }

  lemma ByteShift(b: bv8, w: bv32, j: nat)
    requires j < 8 && w == b as bv32
    ensures BitAt(w, j) <==> (b >> j) & 1 == 1
  {
  }

  // Every byte is fed from its low bit on.
  lemma LowBitFirst(m: seq<bv8>, i: nat)
    requires i < 8 * |m|
    ensures MessageBits(m)[i] <==> (m[i / 8] >> i % 8) & 1 == 1
  {
    BitOfByte(m, i);
    ByteShift(m[i / 8], m[i / 8] as bv32, i % 8);
  }

  lemma ByteBitsInjective(b: bv8, b': bv8)
    requires b != b'
    ensures ByteBits(b) != ByteBits(b')
  {
    var w, w' := b as bv32, b' as bv32;
    WordInjective(w, w');
    BytePadded(w);
    BytePadded(w');
  }

  // In particular errors confined to four consecutive bytes.
  lemma ByteBurstDetected(crc: bv32, crc': bv32, start: bv32, m: seq<bv8>, m': seq<bv8>, p: nat)
    requires IsCrc(crc, start, m) && IsCrc(crc', start, m') && |m| == |m'| && m != m'
    requires forall i :: 0 <= i < |m| && !(p <= i < p + 4) ==> m[i] == m'[i]
    ensures crc != crc'
  {
    var k :| 0 <= k < |m| && m[k] != m'[k];
    BitsOfByte(m, k);
    BitsOfByte(m', k);
    ByteBitsInjective(m[k], m'[k]);
    forall i | 0 <= i < 8 * |m| && !(8 * p <= i < 8 * p + 32) ensures MessageBits(m)[i] == MessageBits(m')[i] {
      BitOfByte(m, i);
      BitOfByte(m', i);
    }
    BitBurstDetected(crc, crc', start, m, m', 8 * p);
  }
}
