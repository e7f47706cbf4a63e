/** CRC-32 with the table of 256 entries: `crc32`. */
module Crc32 {
  import opened CrcAlgebra

  // ---------- the table ----------

  function Row0(n: bv8): bv32 {
    if n == 0 then 0x00000000 else if n == 1 then 0x77073096 else
    if n == 2 then 0xEE0E612C else if n == 3 then 0x990951BA else
    if n == 4 then 0x076DC419 else if n == 5 then 0x706AF48F else
    if n == 6 then 0xE963A535 else if n == 7 then 0x9E6495A3 else
    if n == 8 then 0x0EDB8832 else if n == 9 then 0x79DCB8A4 else
    if n == 10 then 0xE0D5E91E else if n == 11 then 0x97D2D988 else
    if n == 12 then 0x09B64C2B else if n == 13 then 0x7EB17CBD else if n == 14 then 0xE7B82D07 else 0x90BF1D91
  }

  function Row1(n: bv8): bv32 {
    if n == 0 then 0x1DB71064 else if n == 1 then 0x6AB020F2 else
    if n == 2 then 0xF3B97148 else if n == 3 then 0x84BE41DE else
    if n == 4 then 0x1ADAD47D else if n == 5 then 0x6DDDE4EB else
    if n == 6 then 0xF4D4B551 else if n == 7 then 0x83D385C7 else
    if n == 8 then 0x136C9856 else if n == 9 then 0x646BA8C0 else
    if n == 10 then 0xFD62F97A else if n == 11 then 0x8A65C9EC else
    if n == 12 then 0x14015C4F else if n == 13 then 0x63066CD9 else if n == 14 then 0xFA0F3D63 else 0x8D080DF5
  }

  function Row2(n: bv8): bv32 {
    if n == 0 then 0x3B6E20C8 else if n == 1 then 0x4C69105E else
    if n == 2 then 0xD56041E4 else if n == 3 then 0xA2677172 else
    if n == 4 then 0x3C03E4D1 else if n == 5 then 0x4B04D447 else
    if n == 6 then 0xD20D85FD else if n == 7 then 0xA50AB56B else
    if n == 8 then 0x35B5A8FA else if n == 9 then 0x42B2986C else
    if n == 10 then 0xDBBBC9D6 else if n == 11 then 0xACBCF940 else
    if n == 12 then 0x32D86CE3 else if n == 13 then 0x45DF5C75 else if n == 14 then 0xDCD60DCF else 0xABD13D59
  }

  function Row3(n: bv8): bv32 {
    if n == 0 then 0x26D930AC else if n == 1 then 0x51DE003A else
    if n == 2 then 0xC8D75180 else if n == 3 then 0xBFD06116 else
    if n == 4 then 0x21B4F4B5 else if n == 5 then 0x56B3C423 else
    if n == 6 then 0xCFBA9599 else if n == 7 then 0xB8BDA50F else
    if n == 8 then 0x2802B89E else if n == 9 then 0x5F058808 else
    if n == 10 then 0xC60CD9B2 else if n == 11 then 0xB10BE924 else
    if n == 12 then 0x2F6F7C87 else if n == 13 then 0x58684C11 else if n == 14 then 0xC1611DAB else 0xB6662D3D
  }

  function Row4(n: bv8): bv32 {
    if n == 0 then 0x76DC4190 else if n == 1 then 0x01DB7106 else
    if n == 2 then 0x98D220BC else if n == 3 then 0xEFD5102A else
    if n == 4 then 0x71B18589 else if n == 5 then 0x06B6B51F else
    if n == 6 then 0x9FBFE4A5 else if n == 7 then 0xE8B8D433 else
    if n == 8 then 0x7807C9A2 else if n == 9 then 0x0F00F934 else
    if n == 10 then 0x9609A88E else if n == 11 then 0xE10E9818 else
    if n == 12 then 0x7F6A0DBB else if n == 13 then 0x086D3D2D else if n == 14 then 0x91646C97 else 0xE6635C01
  }

  function Row5(n: bv8): bv32 {
    if n == 0 then 0x6B6B51F4 else if n == 1 then 0x1C6C6162 else
    if n == 2 then 0x856530D8 else if n == 3 then 0xF262004E else
    if n == 4 then 0x6C0695ED else if n == 5 then 0x1B01A57B else
    if n == 6 then 0x8208F4C1 else if n == 7 then 0xF50FC457 else
    if n == 8 then 0x65B0D9C6 else if n == 9 then 0x12B7E950 else
    if n == 10 then 0x8BBEB8EA else if n == 11 then 0xFCB9887C else
    if n == 12 then 0x62DD1DDF else if n == 13 then 0x15DA2D49 else if n == 14 then 0x8CD37CF3 else 0xFBD44C65
  }

  function Row6(n: bv8): bv32 {
    if n == 0 then 0x4DB26158 else if n == 1 then 0x3AB551CE else
    if n == 2 then 0xA3BC0074 else if n == 3 then 0xD4BB30E2 else
    if n == 4 then 0x4ADFA541 else if n == 5 then 0x3DD895D7 else
    if n == 6 then 0xA4D1C46D else if n == 7 then 0xD3D6F4FB else
    if n == 8 then 0x4369E96A else if n == 9 then 0x346ED9FC else
    if n == 10 then 0xAD678846 else if n == 11 then 0xDA60B8D0 else
    if n == 12 then 0x44042D73 else if n == 13 then 0x33031DE5 else if n == 14 then 0xAA0A4C5F else 0xDD0D7CC9
  }

  function Row7(n: bv8): bv32 {
    if n == 0 then 0x5005713C else if n == 1 then 0x270241AA else
    if n == 2 then 0xBE0B1010 else if n == 3 then 0xC90C2086 else
    if n == 4 then 0x5768B525 else if n == 5 then 0x206F85B3 else
    if n == 6 then 0xB966D409 else if n == 7 then 0xCE61E49F else
    if n == 8 then 0x5EDEF90E else if n == 9 then 0x29D9C998 else
    if n == 10 then 0xB0D09822 else if n == 11 then 0xC7D7A8B4 else
    if n == 12 then 0x59B33D17 else if n == 13 then 0x2EB40D81 else if n == 14 then 0xB7BD5C3B else 0xC0BA6CAD
  }

  function Row8(n: bv8): bv32 {
    if n == 0 then 0xEDB88320 else if n == 1 then 0x9ABFB3B6 else
    if n == 2 then 0x03B6E20C else if n == 3 then 0x74B1D29A else
    if n == 4 then 0xEAD54739 else if n == 5 then 0x9DD277AF else
    if n == 6 then 0x04DB2615 else if n == 7 then 0x73DC1683 else
    if n == 8 then 0xE3630B12 else if n == 9 then 0x94643B84 else
    if n == 10 then 0x0D6D6A3E else if n == 11 then 0x7A6A5AA8 else
    if n == 12 then 0xE40ECF0B else if n == 13 then 0x9309FF9D else if n == 14 then 0x0A00AE27 else 0x7D079EB1
  }

  function Row9(n: bv8): bv32 {
    if n == 0 then 0xF00F9344 else if n == 1 then 0x8708A3D2 else
    if n == 2 then 0x1E01F268 else if n == 3 then 0x6906C2FE else
    if n == 4 then 0xF762575D else if n == 5 then 0x806567CB else
    if n == 6 then 0x196C3671 else if n == 7 then 0x6E6B06E7 else
    if n == 8 then 0xFED41B76 else if n == 9 then 0x89D32BE0 else
    if n == 10 then 0x10DA7A5A else if n == 11 then 0x67DD4ACC else
    if n == 12 then 0xF9B9DF6F else if n == 13 then 0x8EBEEFF9 else if n == 14 then 0x17B7BE43 else 0x60B08ED5
  }

  function RowA(n: bv8): bv32 {
    if n == 0 then 0xD6D6A3E8 else if n == 1 then 0xA1D1937E else
    if n == 2 then 0x38D8C2C4 else if n == 3 then 0x4FDFF252 else
    if n == 4 then 0xD1BB67F1 else if n == 5 then 0xA6BC5767 else
    if n == 6 then 0x3FB506DD else if n == 7 then 0x48B2364B else
    if n == 8 then 0xD80D2BDA else if n == 9 then 0xAF0A1B4C else
    if n == 10 then 0x36034AF6 else if n == 11 then 0x41047A60 else
    if n == 12 then 0xDF60EFC3 else if n == 13 then 0xA867DF55 else if n == 14 then 0x316E8EEF else 0x4669BE79
  }

  function RowB(n: bv8): bv32 {
    if n == 0 then 0xCB61B38C else if n == 1 then 0xBC66831A else
    if n == 2 then 0x256FD2A0 else if n == 3 then 0x5268E236 else
    if n == 4 then 0xCC0C7795 else if n == 5 then 0xBB0B4703 else
    if n == 6 then 0x220216B9 else if n == 7 then 0x5505262F else
    if n == 8 then 0xC5BA3BBE else if n == 9 then 0xB2BD0B28 else
    if n == 10 then 0x2BB45A92 else if n == 11 then 0x5CB36A04 else
    if n == 12 then 0xC2D7FFA7 else if n == 13 then 0xB5D0CF31 else if n == 14 then 0x2CD99E8B else 0x5BDEAE1D
  }

  function RowC(n: bv8): bv32 {
    if n == 0 then 0x9B64C2B0 else if n == 1 then 0xEC63F226 else
    if n == 2 then 0x756AA39C else if n == 3 then 0x026D930A else
    if n == 4 then 0x9C0906A9 else if n == 5 then 0xEB0E363F else
    if n == 6 then 0x72076785 else if n == 7 then 0x05005713 else
    if n == 8 then 0x95BF4A82 else if n == 9 then 0xE2B87A14 else
    if n == 10 then 0x7BB12BAE else if n == 11 then 0x0CB61B38 else
    if n == 12 then 0x92D28E9B else if n == 13 then 0xE5D5BE0D else if n == 14 then 0x7CDCEFB7 else 0x0BDBDF21
  }

  function RowD(n: bv8): bv32 {
    if n == 0 then 0x86D3D2D4 else if n == 1 then 0xF1D4E242 else
    if n == 2 then 0x68DDB3F8 else if n == 3 then 0x1FDA836E else
    if n == 4 then 0x81BE16CD else if n == 5 then 0xF6B9265B else
    if n == 6 then 0x6FB077E1 else if n == 7 then 0x18B74777 else
    if n == 8 then 0x88085AE6 else if n == 9 then 0xFF0F6A70 else
    if n == 10 then 0x66063BCA else if n == 11 then 0x11010B5C else
    if n == 12 then 0x8F659EFF else if n == 13 then 0xF862AE69 else if n == 14 then 0x616BFFD3 else 0x166CCF45
  }

  function RowE(n: bv8): bv32 {
    if n == 0 then 0xA00AE278 else if n == 1 then 0xD70DD2EE else
    if n == 2 then 0x4E048354 else if n == 3 then 0x3903B3C2 else
    if n == 4 then 0xA7672661 else if n == 5 then 0xD06016F7 else
    if n == 6 then 0x4969474D else if n == 7 then 0x3E6E77DB else
    if n == 8 then 0xAED16A4A else if n == 9 then 0xD9D65ADC else
    if n == 10 then 0x40DF0B66 else if n == 11 then 0x37D83BF0 else
    if n == 12 then 0xA9BCAE53 else if n == 13 then 0xDEBB9EC5 else if n == 14 then 0x47B2CF7F else 0x30B5FFE9
  }

  function RowF(n: bv8): bv32 {
    if n == 0 then 0xBDBDF21C else if n == 1 then 0xCABAC28A else
    if n == 2 then 0x53B39330 else if n == 3 then 0x24B4A3A6 else
    if n == 4 then 0xBAD03605 else if n == 5 then 0xCDD70693 else
    if n == 6 then 0x54DE5729 else if n == 7 then 0x23D967BF else
    if n == 8 then 0xB3667A2E else if n == 9 then 0xC4614AB8 else
    if n == 10 then 0x5D681B02 else if n == 11 then 0x2A6F2B94 else
    if n == 12 then 0xB40BBE37 else if n == 13 then 0xC30C8EA1 else if n == 14 then 0x5A05DF1B else 0x2D02EF8D
  }

  /** `crc32_tab[b]`. */
  function Entry(b: bv8): bv32 {
    var row, n := b >> 4, b & 15;
    if row == 0 then Row0(n) else
    if row == 1 then Row1(n) else
    if row == 2 then Row2(n) else
    if row == 3 then Row3(n) else
    if row == 4 then Row4(n) else
    if row == 5 then Row5(n) else
    if row == 6 then Row6(n) else
    if row == 7 then Row7(n) else
    if row == 8 then Row8(n) else
    if row == 9 then Row9(n) else
    if row == 10 then RowA(n) else
    if row == 11 then RowB(n) else
    if row == 12 then RowC(n) else
    if row == 13 then RowD(n) else
    if row == 14 then RowE(n) else
    RowF(n)
  }

  // ---------- one bit at a time ----------

  /** One bit of the reflected division by the polynomial 0xEDB88320. */
  function Step(x: bv32): bv32 {
    if x & 1 == 1 then (x >> 1) ^ 0xEDB88320 else x >> 1
  }

  /** One bit undone: the polynomial has its highest bit set. */
  function Unstep(y: bv32): bv32 {
    if y & 0x80000000 == 0 then y << 1 else ((y ^ 0xEDB88320) << 1) | 1
  }

  lemma StepUnstep(x: bv32)
    ensures Unstep(Step(x)) == x
  {
  }

  function Xor(x: bv32, y: bv32): bv32 {
    x ^ y
  }

  function Byte(b: bv8): bv32 {
    b as bv32
  }

  /** The check value bit by bit, as in section 8 of RFC 1952. */
  function Bitwise(data: seq<bv8>): bv32 {
    Feed(Step, Xor, Byte, 0xFFFFFFFF, data) ^ 0xFFFFFFFF
  }

  lemma Bit(x: bv32)
    ensures x & 1 == 0 || x & 1 == 1
  {
  }

  lemma LinearEven(x: bv32, y: bv32)
    requires x & 1 == 0 && y & 1 == 0
    ensures LinearAt(Step, Xor, x, y)
  {
  }

  lemma LinearOdd(x: bv32, y: bv32)
    requires x & 1 == 1 && y & 1 == 1
    ensures LinearAt(Step, Xor, x, y)
  {
  }

  lemma LinearFirst(x: bv32, y: bv32)
    requires x & 1 == 1 && y & 1 == 0
    ensures LinearAt(Step, Xor, x, y)
  {
  }

  lemma LinearSecond(x: bv32, y: bv32)
    requires x & 1 == 0 && y & 1 == 1
    ensures LinearAt(Step, Xor, x, y)
  {
  }

  lemma StepLinear(x: bv32, y: bv32)
    ensures LinearAt(Step, Xor, x, y)
  {
    Bit(x);
    Bit(y);
    if x & 1 == 1 && y & 1 == 1 {
      LinearOdd(x, y);
    } else if x & 1 == 1 {
      LinearFirst(x, y);
    } else if y & 1 == 1 {
      LinearSecond(x, y);
    } else {
      LinearEven(x, y);
    }
  }

  lemma StepIsLinear()
    ensures Linear(Step, Xor)
  {
    forall x, y {:trigger LinearAt(Step, Xor, x, y)} ensures LinearAt(Step, Xor, x, y) { StepLinear(x, y); }
  }

  // ---------- the table holds eight bits at once ----------

  lemma Unroll<W>(f: W -> W, x: W)
    ensures Iter(f, 8, x) == f(f(f(f(f(f(f(f(x))))))))
  {
    var y := f(f(f(f(x))));
    assert Iter(f, 4, y) == f(f(f(f(y)))) by { assert Iter(f, 2, f(f(y))) == f(f(f(f(y)))); }
    assert Iter(f, 4, x) == y by { assert Iter(f, 2, f(f(x))) == y; }
    IterAdd(f, 4, 4, x);
  }

  /** What a table has for bit `m` of its index. */
  function Part(e: bv8 -> bv32, b: bv8, m: bv8): bv32 {
    if b & m == 0 then 0 else e(m)
  }

  lemma FirstRowBits(n: bv8)
    requires n < 16
    ensures Row0(n) == Sum4(Xor, if n & 8 == 0 then 0 else Row0(8), if n & 4 == 0 then 0 else Row0(4),
                         if n & 2 == 0 then 0 else Row0(2), if n & 1 == 0 then 0 else Row0(1))
  {
  }

  lemma FourParts(xor: (bv32, bv32) -> bv32, e: bv8 -> bv32, n: bv8, r: bv32, a: bv32, b: bv32, c: bv32, d: bv32)
    requires a == e(8) && b == e(4) && c == e(2) && d == e(1)
    requires r == Sum4(xor, if n & 8 == 0 then 0 else a, if n & 4 == 0 then 0 else b,
                    if n & 2 == 0 then 0 else c, if n & 1 == 0 then 0 else d)
    ensures r == Sum4(xor, Part(e, n, 8), Part(e, n, 4), Part(e, n, 2), Part(e, n, 1))
  {
  }

  lemma FirstRow(n: bv8)
    requires n < 16
    ensures Row0(n) == Sum4(Xor, Part(Row0, n, 8), Part(Row0, n, 4), Part(Row0, n, 2), Part(Row0, n, 1))
  {
    FirstRowBits(n);
    FourParts(Xor, Row0, n, Row0(n), Row0(8), Row0(4), Row0(2), Row0(1));
  }

  /** The first entry of a row. */
  function Head(row: bv8): bv32 {
    if row == 0 then 0 else
    if row == 1 then Row1(0) else
    if row == 2 then Row2(0) else
    if row == 3 then Row3(0) else
    if row == 4 then Row4(0) else
    if row == 5 then Row5(0) else
    if row == 6 then Row6(0) else
    if row == 7 then Row7(0) else
    if row == 8 then Row8(0) else
    if row == 9 then Row9(0) else
    if row == 10 then RowA(0) else
    if row == 11 then RowB(0) else
    if row == 12 then RowC(0) else
    if row == 13 then RowD(0) else
    if row == 14 then RowE(0) else
    RowF(0)
  }

  lemma HeadBits(row: bv8)
    requires row < 16
    ensures Head(row) == Sum4(Xor, Part(Head, row, 8), Part(Head, row, 4), Part(Head, row, 2), Part(Head, row, 1))
  {
  }

  lemma Row1Shifted(n: bv8)
    requires n < 16
    ensures Row1(n) == Row1(0) ^ Row0(n)
  {
  }

  lemma Row2Shifted(n: bv8)
    requires n < 16
    ensures Row2(n) == Row2(0) ^ Row0(n)
  {
  }

  lemma Row3Shifted(n: bv8)
    requires n < 16
    ensures Row3(n) == Row3(0) ^ Row0(n)
  {
  }

  lemma Row4Shifted(n: bv8)
    requires n < 16
    ensures Row4(n) == Row4(0) ^ Row0(n)
  {
  }

  lemma Row5Shifted(n: bv8)
    requires n < 16
    ensures Row5(n) == Row5(0) ^ Row0(n)
  {
  }

  lemma Row6Shifted(n: bv8)
    requires n < 16
    ensures Row6(n) == Row6(0) ^ Row0(n)
  {
  }

  lemma Row7Shifted(n: bv8)
    requires n < 16
    ensures Row7(n) == Row7(0) ^ Row0(n)
  {
  }

  lemma Row8Shifted(n: bv8)
    requires n < 16
    ensures Row8(n) == Row8(0) ^ Row0(n)
  {
  }

  lemma Row9Shifted(n: bv8)
    requires n < 16
    ensures Row9(n) == Row9(0) ^ Row0(n)
  {
  }

  lemma RowAShifted(n: bv8)
    requires n < 16
    ensures RowA(n) == RowA(0) ^ Row0(n)
  {
  }

  lemma RowBShifted(n: bv8)
    requires n < 16
    ensures RowB(n) == RowB(0) ^ Row0(n)
  {
  }

  lemma RowCShifted(n: bv8)
    requires n < 16
    ensures RowC(n) == RowC(0) ^ Row0(n)
  {
  }

  lemma RowDShifted(n: bv8)
    requires n < 16
    ensures RowD(n) == RowD(0) ^ Row0(n)
  {
  }

  lemma RowEShifted(n: bv8)
    requires n < 16
    ensures RowE(n) == RowE(0) ^ Row0(n)
  {
  }

  lemma RowFShifted(n: bv8)
    requires n < 16
    ensures RowF(n) == RowF(0) ^ Row0(n)
  {
  }

  /** Every row is the first one combined with its own first entry. */
  lemma FirstRows(b: bv8)
    requires 0 <= b >> 4 < 4
    ensures Entry(b) == Xor(Head(b >> 4), Row0(b & 15))
  {
    var row, n := b >> 4, b & 15;
    assert n < 16;
    if row == 0 {
      assert 0 ^ Row0(n) == Row0(n);
    } else if row == 1 {
      Row1Shifted(n);
    } else if row == 2 {
      Row2Shifted(n);
    } else {
      Row3Shifted(n);
    }
  }

  lemma SecondRows(b: bv8)
    requires 4 <= b >> 4 < 8
    ensures Entry(b) == Xor(Head(b >> 4), Row0(b & 15))
  {
    var row, n := b >> 4, b & 15;
    assert n < 16;
    if row == 4 {
      Row4Shifted(n);
    } else if row == 5 {
      Row5Shifted(n);
    } else if row == 6 {
      Row6Shifted(n);
    } else {
      Row7Shifted(n);
    }
  }

  lemma ThirdRows(b: bv8)
    requires 8 <= b >> 4 < 12
    ensures Entry(b) == Xor(Head(b >> 4), Row0(b & 15))
  {
    var row, n := b >> 4, b & 15;
    assert n < 16;
    if row == 8 {
      Row8Shifted(n);
    } else if row == 9 {
      Row9Shifted(n);
    } else if row == 10 {
      RowAShifted(n);
    } else {
      RowBShifted(n);
    }
  }

  lemma FourthRows(b: bv8)
    requires 12 <= b >> 4 < 16
    ensures Entry(b) == Xor(Head(b >> 4), Row0(b & 15))
  {
    var row, n := b >> 4, b & 15;
    assert n < 16;
    if row == 12 {
      RowCShifted(n);
    } else if row == 13 {
      RowDShifted(n);
    } else if row == 14 {
      RowEShifted(n);
    } else {
      RowFShifted(n);
    }
  }

  lemma Rows(b: bv8)
    ensures b >> 4 < 16 && b & 15 < 16 && Entry(b) == Xor(Head(b >> 4), Row0(b & 15))
  {
    if b >> 4 < 4 {
      FirstRows(b);
    } else if b >> 4 < 8 {
      SecondRows(b);
    } else if b >> 4 < 12 {
      ThirdRows(b);
    } else {
      FourthRows(b);
    }
  }

  /** The eight parts combined. */
  function Parts(xor: (bv32, bv32) -> bv32, e: bv8 -> bv32, b: bv8): bv32 {
    Sum8(xor, Part(e, b, 128), Part(e, b, 64), Part(e, b, 32), Part(e, b, 16),
      Part(e, b, 8), Part(e, b, 4), Part(e, b, 2), Part(e, b, 1))
  }

  lemma LowParts(b: bv8)
    ensures Part(Row0, b & 15, 1) == Part(Entry, b, 1) && Part(Row0, b & 15, 2) == Part(Entry, b, 2)
    ensures Part(Row0, b & 15, 4) == Part(Entry, b, 4) && Part(Row0, b & 15, 8) == Part(Entry, b, 8)
  {
  }

  lemma HighParts(b: bv8)
    ensures Part(Head, b >> 4, 1) == Part(Entry, b, 16) && Part(Head, b >> 4, 2) == Part(Entry, b, 32)
    ensures Part(Head, b >> 4, 4) == Part(Entry, b, 64) && Part(Head, b >> 4, 8) == Part(Entry, b, 128)
  {
  }

  /** The entries for single bits determine the whole table. */
  lemma EntryParts(b: bv8)
    ensures Entry(b) == Parts(Xor, Entry, b)
  {
    Rows(b);
    HeadBits(b >> 4);
    FirstRow(b & 15);
    LowParts(b);
    HighParts(b);
  }

  // ---------- eight bits at once ----------

  function Octet(x: bv32): bv32 {
    Step(Step(Step(Step(Step(Step(Step(Step(x))))))))
  }

  lemma OctetIter(x: bv32)
    ensures Iter(Step, 8, x) == Octet(x)
  {
    Unroll(Step, x);
  }

  lemma OctetLinear()
    ensures Linear(Octet, Xor)
  {
    forall x, y {:trigger LinearAt(Octet, Xor, x, y)} ensures LinearAt(Octet, Xor, x, y) {
      StepIsLinear();
      IterLinear(Step, Xor, 8, x, y);
      OctetIter(x);
      OctetIter(y);
      OctetIter(Xor(x, y));
    }
  }

  lemma LowBits()
    ensures Octet(0) == 0 && Octet(1) == Entry(1) && Octet(2) == Entry(2) && Octet(4) == Entry(4)
      && Octet(8) == Entry(8)
  {
  }

  lemma HighBits()
    ensures Octet(16) == Entry(16) && Octet(32) == Entry(32) && Octet(64) == Entry(64) && Octet(128) == Entry(128)
  {
  }

  /** A table and a linear function that agree on single bits. */
  ghost predicate AgreeAt(e: bv8 -> bv32, o: bv32 -> bv32, m: bv8) {
    o(0) == 0 && o(m as bv32) == e(m)
  }

  lemma AgreePart(e: bv8 -> bv32, o: bv32 -> bv32, b: bv8, m: bv8)
    requires AgreeAt(e, o, m) && (b & m == 0 || b & m == m)
    ensures Part(e, b, m) == o((b & m) as bv32)
  {
  }

  lemma SingleBit(b: bv8)
    ensures (b & 1 == 0 || b & 1 == 1) && (b & 2 == 0 || b & 2 == 2) && (b & 4 == 0 || b & 4 == 4)
    ensures (b & 8 == 0 || b & 8 == 8) && (b & 16 == 0 || b & 16 == 16) && (b & 32 == 0 || b & 32 == 32)
    ensures (b & 64 == 0 || b & 64 == 64) && (b & 128 == 0 || b & 128 == 128)
  {
  }

  lemma ByteParts(b: bv8)
    ensures b as bv32 == Sum8(Xor, (b & 128) as bv32, (b & 64) as bv32, (b & 32) as bv32, (b & 16) as bv32,
      (b & 8) as bv32, (b & 4) as bv32, (b & 2) as bv32, (b & 1) as bv32)
  {
  }

  lemma PartsAgree(xor: (bv32, bv32) -> bv32, e: bv8 -> bv32, o: bv32 -> bv32, b: bv8)
    requires Linear(o, xor) && AgreeAt(e, o, 1) && AgreeAt(e, o, 2) && AgreeAt(e, o, 4) && AgreeAt(e, o, 8)
    requires AgreeAt(e, o, 16) && AgreeAt(e, o, 32) && AgreeAt(e, o, 64) && AgreeAt(e, o, 128)
    requires b as bv32 == Sum8(xor, (b & 128) as bv32, (b & 64) as bv32, (b & 32) as bv32, (b & 16) as bv32,
      (b & 8) as bv32, (b & 4) as bv32, (b & 2) as bv32, (b & 1) as bv32)
    ensures Parts(xor, e, b) == o(b as bv32)
  {
    SingleBit(b);
    AgreePart(e, o, b, 1);
    AgreePart(e, o, b, 2);
    AgreePart(e, o, b, 4);
    AgreePart(e, o, b, 8);
    AgreePart(e, o, b, 16);
    AgreePart(e, o, b, 32);
    AgreePart(e, o, b, 64);
    AgreePart(e, o, b, 128);
    LinearSum8(o, xor, (b & 128) as bv32, (b & 64) as bv32, (b & 32) as bv32, (b & 16) as bv32,
      (b & 8) as bv32, (b & 4) as bv32, (b & 2) as bv32, (b & 1) as bv32);
  }

  /** Each entry of the table is its index stepped by eight bits. */
  lemma TableOk(b: bv8)
    ensures Entry(b) == Iter(Step, 8, Byte(b))
  {
    EntryParts(b);
    LowBits();
    HighBits();
    OctetLinear();
    ByteParts(b);
    PartsAgree(Xor, Entry, Octet, b);
    OctetIter(Byte(b));
  }

  lemma HalveDouble(y: bv32)
    requires y & 0x80000000 == 0
    ensures Step(y << 1) == y
  {
  }

  lemma Shifts(x: bv32)
    requires x & 0xFF000000 == 0
    ensures (x << 7) & 0x80000000 == 0 && (x << 7) << 1 == x << 8
    ensures (x << 6) & 0x80000000 == 0 && (x << 6) << 1 == x << 7
    ensures (x << 5) & 0x80000000 == 0 && (x << 5) << 1 == x << 6
    ensures (x << 4) & 0x80000000 == 0 && (x << 4) << 1 == x << 5
    ensures (x << 3) & 0x80000000 == 0 && (x << 3) << 1 == x << 4
    ensures (x << 2) & 0x80000000 == 0 && (x << 2) << 1 == x << 3
    ensures (x << 1) & 0x80000000 == 0 && (x << 1) << 1 == x << 2
    ensures x & 0x80000000 == 0
  {
  }

  /** A word without its lowest byte is only shifted. */
  lemma Shift8(x: bv32)
    requires x & 0xFF000000 == 0
    ensures Iter(Step, 8, x << 8) == x
  {
    Shifts(x);
    HalveDouble(x << 7);
    HalveDouble(x << 6);
    HalveDouble(x << 5);
    HalveDouble(x << 4);
    HalveDouble(x << 3);
    HalveDouble(x << 2);
    HalveDouble(x << 1);
    HalveDouble(x);
    Unroll(Step, x << 8);
  }

  lemma Halves(x: bv32)
    ensures ((x >> 8) << 8) ^ (x & 0xFF) == x && (x >> 8) & 0xFF000000 == 0
    ensures x & 0xFF == ((x & 0xFF) as bv8) as bv32
  {
  }

  lemma RoundAlgebra<W(!new)>(f: W -> W, xor: (W, W) -> W, x: W, high: W, low: W, hi: W, e: W)
    requires Linear(f, xor) && x == xor(high, low) && Iter(f, 8, high) == hi && Iter(f, 8, low) == e
    ensures xor(hi, e) == Iter(f, 8, x)
  {
    IterLinear(f, xor, 8, high, low);
  }

  /** One round of the loop is eight bits. */
  lemma RoundOk(x: bv32, hi: bv32, e: bv32)
    requires hi == x >> 8 && e == Iter(Step, 8, Byte((x & 0xFF) as bv8))
    ensures Xor(hi, e) == Iter(Step, 8, x)
  {
    Halves(x);
    Shift8(hi);
    StepIsLinear();
    RoundAlgebra(Step, Xor, x, hi << 8, Byte((x & 0xFF) as bv8), hi, e);
  }

  lemma SameByte(val: bv32, b: bv8)
    ensures val >> 8 == (val ^ (b as bv32)) >> 8
  {
  }

  method Lookup(b: bv8) returns (e: bv32)
    ensures e == Iter(Step, 8, Byte(b))
  {
    TableOk(b);
    e := Entry(b);
  }

  /** The body of the loop. */
  method Round(val: bv32, b: bv8) returns (v: bv32)
    ensures v == Iter(Step, 8, Xor(val, Byte(b)))
  {
    var x := Xor(val, Byte(b));
    var e := Lookup((x & 0xFF) as bv8);
    SameByte(val, b);
    RoundOk(x, val >> 8, e);
    v := Xor(val >> 8, e);
  }

  lemma FeedNext<W, B>(f: W -> W, xor: (W, W) -> W, emb: B -> W, s: W, data: seq<B>, i: nat, val: W, v: W)
    requires i < |data| && val == Feed(f, xor, emb, s, data[..i]) && v == Iter(f, 8, xor(val, emb(data[i])))
    ensures v == Feed(f, xor, emb, s, data[..i + 1])
  {
    FeedLast(f, xor, emb, s, data[..i + 1]);
    assert data[..i + 1][..i] == data[..i];
  }

  /** `crc32`: the table-driven loop computes the bit-by-bit check value. */
  method Crc(data: seq<bv8>) returns (crc: bv32)
    ensures crc == Bitwise(data)
  {
    var val: bv32 := 0xFFFFFFFF;
    assert data[..0] == [];
    for i := 0 to |data|
      invariant val == Feed(Step, Xor, Byte, 0xFFFFFFFF, data[..i])
    {
      var v := Round(val, data[i]);
      FeedNext(Step, Xor, Byte, 0xFFFFFFFF, data, i, val, v);
      val := v;
    }
    assert data[..|data|] == data;
    crc := val ^ 0xFFFFFFFF;
  }

  // ---------- differences in at most four neighbouring bytes ----------

  lemma UnstepIsInverse()
    ensures Inverse(Unstep, Step)
  {
    forall x ensures Unstep(Step(x)) == x { StepUnstep(x); }
  }

  lemma XorCancels()
    ensures Cancels(Xor)
  {
    forall x, y, e | Xor(x, e) == Xor(y, e) ensures x == y { Cancel(x, y, e); }
  }

  lemma Cancel(x: bv32, y: bv32, e: bv32)
    requires x ^ e == y ^ e
    ensures x == y
  {
  }

  function Shifted(j: nat, b: bv8): bv32 {
    if j == 0 then b as bv32
    else if j == 1 then (b as bv32) << 8
    else if j == 2 then (b as bv32) << 16
    else (b as bv32) << 24
  }

  lemma ShiftedBack(j: nat, b: bv8)
    requires 0 < j < 4
    ensures Iter(Step, 8, Shifted(j, b)) == Shifted(j - 1, b)
  {
    ShiftTwice(b);
    if j == 1 {
      Shift8(b as bv32);
    } else if j == 2 {
      Shift8((b as bv32) << 8);
    } else {
      Shift8((b as bv32) << 16);
    }
  }

  lemma ShiftTwice(b: bv8)
    ensures var x := b as bv32;
      && (x << 8) << 8 == x << 16 && (x << 16) << 8 == x << 24
      && x & 0xFF000000 == 0 && (x << 8) & 0xFF000000 == 0 && (x << 16) & 0xFF000000 == 0
  {
  }

  lemma {:induction false} ShiftedMoves(j: nat, b: bv8)
    requires j < 4
    ensures Iter(Step, 8 * j, Shifted(j, b)) == Byte(b)
  {
    if j > 0 {
      ShiftedBack(j, b);
      IterAdd(Step, 8, 8 * (j - 1), Shifted(j, b));
      ShiftedMoves(j - 1, b);
    }
  }

  lemma PackedUnfold<W, B>(xor: (W, W) -> W, sh: (nat, B) -> W, s: W, u: seq<B>)
    ensures |u| > 0 ==> Packed(xor, sh, s, u) == xor(Packed(xor, sh, s, u[..|u| - 1]), sh(|u| - 1, u[|u| - 1]))
    ensures u == [] ==> Packed(xor, sh, s, u) == s
  {
  }

  /** Four bytes and the word they are added to, with zero for bytes that are missing. */
  function Quad(s: bv32, a: bv8, b: bv8, c: bv8, d: bv8): bv32 {
    s ^ (a as bv32) ^ ((b as bv32) << 8) ^ ((c as bv32) << 16) ^ ((d as bv32) << 24)
  }

  function At(u: seq<bv8>, i: nat): bv8 {
    if i < |u| then u[i] else 0
  }

  lemma QuadApart(s: bv32, a: bv8, b: bv8, c: bv8, d: bv8, a': bv8, b': bv8, c': bv8, d': bv8)
    requires Quad(s, a, b, c, d) == Quad(s, a', b', c', d')
    ensures a == a' && b == b' && c == c' && d == d'
  {
  }

  lemma Quad0(s: bv32, a: bv8)
    ensures Quad(s, 0, 0, 0, 0) == s && Xor(s, Shifted(0, a)) == Quad(s, a, 0, 0, 0)
  {
  }

  lemma Quad1(s: bv32, a: bv8, b: bv8)
    ensures Xor(Quad(s, a, 0, 0, 0), Shifted(1, b)) == Quad(s, a, b, 0, 0)
  {
  }

  lemma Quad2(s: bv32, a: bv8, b: bv8, c: bv8)
    ensures Xor(Quad(s, a, b, 0, 0), Shifted(2, c)) == Quad(s, a, b, c, 0)
  {
  }

  lemma Quad3(s: bv32, a: bv8, b: bv8, c: bv8, d: bv8)
    ensures Xor(Quad(s, a, b, c, 0), Shifted(3, d)) == Quad(s, a, b, c, d)
  {
  }

  lemma {:induction false} PackedQuad(s: bv32, u: seq<bv8>)
    requires |u| <= 4
    ensures Packed(Xor, Shifted, s, u) == Quad(s, At(u, 0), At(u, 1), At(u, 2), At(u, 3))
    decreases |u|
  {
    PackedUnfold(Xor, Shifted, s, u);
    if u != [] { PackedQuad(s, u[..|u| - 1]); }
    if |u| == 4 {
      Quad3(s, u[0], u[1], u[2], u[3]);
    } else if |u| == 3 {
      Quad2(s, u[0], u[1], u[2]);
    } else if |u| == 2 {
      Quad1(s, u[0], u[1]);
    } else {
      Quad0(s, At(u, 0));
    }
  }

  lemma PackedDiffers()
    ensures PackedApart(Xor, Shifted, 4)
  {
    forall s: bv32, u: seq<bv8>, v: seq<bv8> {:trigger Packed(Xor, Shifted, s, u), Packed(Xor, Shifted, s, v)}
      | |u| == |v| <= 4 && Packed(Xor, Shifted, s, u) == Packed(Xor, Shifted, s, v)
      ensures u == v
    {
      PackedQuad(s, u);
      PackedQuad(s, v);
      QuadApart(s, At(u, 0), At(u, 1), At(u, 2), At(u, 3), At(v, 0), At(v, 1), At(v, 2), At(v, 3));
    }
  }

  /** Strings of equal length that differ only within four neighbouring bytes have different check values. */
  lemma DetectsWindow(data: seq<bv8>, data': seq<bv8>, i: nat, k: nat)
    requires |data| == |data'| && data != data' && k <= 4 && i + k <= |data|
    requires forall j :: 0 <= j < |data| && data[j] != data'[j] ==> i <= j < i + k
    ensures Bitwise(data) != Bitwise(data')
  {
    StepIsLinear();
    UnstepIsInverse();
    XorCancels();
    PackedDiffers();
    forall j: nat, b: bv8 {:trigger Shifted(j, b)} | j < 4 ensures Iter(Step, 8 * j, Shifted(j, b)) == Byte(b) {
      ShiftedMoves(j, b);
    }
    var pre, u, v, post := data[..i], data[i..i + k], data'[i..i + k], data[i + k..];
    assert data == pre + u + post;
    assert data' == pre + v + post;
    WindowDiffers(Step, Unstep, Xor, Byte, Shifted, 4, 0xFFFFFFFF, pre, u, v, post);
  }

  // ---------- known values ----------

  /** The check value as it is appended to data: its low byte first. */
  function Trailer(c: bv32): seq<bv8> {
    [(c & 0xFF) as bv8, ((c >> 8) & 0xFF) as bv8, ((c >> 16) & 0xFF) as bv8, (c >> 24) as bv8]
  }

  lemma TrailerQuad(s: bv32)
    ensures var c := s ^ 0xFFFFFFFF;
      Quad(s, (c & 0xFF) as bv8, ((c >> 8) & 0xFF) as bv8, ((c >> 16) & 0xFF) as bv8, (c >> 24) as bv8) == 0xFFFFFFFF
  {
  }

  lemma TrailerPacked(s: bv32)
    ensures Packed(Xor, Shifted, s, Trailer(s ^ 0xFFFFFFFF)) == 0xFFFFFFFF
  {
    PackedQuad(s, Trailer(s ^ 0xFFFFFFFF));
    TrailerQuad(s);
  }

  lemma Octets()
    ensures Octet(0xFFFFFFFF) == 0x2DFD1072 && Octet(0x2DFD1072) == 0xBE26ED00
    ensures Octet(0xBE26ED00) == 0x00BE26ED && Octet(0x00BE26ED) == 0xDEBB20E3
  {
  }

  lemma FourOctets<W>(f: W -> W, a: W, b: W, c: W, d: W, e: W)
    requires Iter(f, 8, a) == b && Iter(f, 8, b) == c && Iter(f, 8, c) == d && Iter(f, 8, d) == e
    ensures Iter(f, 32, a) == e
  {
    IterAdd(f, 8, 8, a);
    IterAdd(f, 16, 8, a);
    IterAdd(f, 24, 8, a);
  }

  lemma AllOnes()
    ensures Iter(Step, 32, 0xFFFFFFFF) == 0xDEBB20E3
  {
    Octets();
    OctetIter(0xFFFFFFFF);
    OctetIter(0x2DFD1072);
    OctetIter(0xBE26ED00);
    OctetIter(0x00BE26ED);
    FourOctets(Step, 0xFFFFFFFF, 0x2DFD1072, 0xBE26ED00, 0x00BE26ED, 0xDEBB20E3);
  }

  /** Data followed by its own check value always has the same check value. */
  lemma Residue(data: seq<bv8>)
    ensures Bitwise(data + Trailer(Bitwise(data))) == 0x2144DF1C
  {
    var s := Feed(Step, Xor, Byte, 0xFFFFFFFF, data);
    var t := Trailer(s ^ 0xFFFFFFFF);
    StepIsLinear();
    forall j: nat, b: bv8 {:trigger Shifted(j, b)} | j < 4 ensures Iter(Step, 8 * j, Shifted(j, b)) == Byte(b) {
      ShiftedMoves(j, b);
    }
    FeedAppend(Step, Xor, Byte, 0xFFFFFFFF, data, t);
    FeedPacked(Step, Xor, Byte, Shifted, s, t, 4);
    TrailerPacked(s);
    AllOnes();
  }

  lemma FeedFirst(s: bv32, b: bv8, rest: seq<bv8>, x: bv32, s': bv32)
    requires x == s ^ (b as bv32) && Octet(x) == s'
    ensures Feed(Step, Xor, Byte, s, [b] + rest) == Feed(Step, Xor, Byte, s', rest)
  {
    OctetIter(x);
    assert ([b] + rest)[1..] == rest;
  }

  lemma DigitOctets()
    ensures Octet(0xFFFFFFCE) == 0x7C231048 && Octet(0x7C23107A) == 0xB0ACBB32 && Octet(0xB0ACBB01) == 0x77B79C2D
    ensures Octet(0x77B79C19) == 0x641C1F5C && Octet(0x641C1F69) == 0x340AC5E3 && Octet(0x340AC5D5) == 0xF68D2C9E
    ensures Octet(0xF68D2CA9) == 0xAFFC9660 && Octet(0xAFFC9658) == 0x651F2550 && Octet(0x651F2569) == 0x340BC6D9
  {
  }

  /** The digits 1 to 9, in ASCII. */
  function Digits(): seq<bv8> {
    [0x31, 0x32, 0x33, 0x34, 0x35, 0x36, 0x37, 0x38, 0x39]
  }

  lemma OneByOne<B>(a: B, b: B, c: B, d: B, e: B, f: B, g: B, h: B, i: B)
    ensures [a, b, c, d, e, f, g, h, i] == [a] + ([b] + ([c] + ([d] + ([e] + ([f] + ([g] + ([h] + ([i] + []))))))))
  {
  }

  /** The check value the polynomial is known by, and that of the empty string. */
  lemma KnownValues()
    ensures Bitwise(Digits()) == 0xCBF43926 && Bitwise([]) == 0
  {
    DigitOctets();
    var r9: seq<bv8> := [];
    var r8 := [0x39] + r9;
    var r7 := [0x38] + r8;
    var r6 := [0x37] + r7;
    var r5 := [0x36] + r6;
    var r4 := [0x35] + r5;
    var r3 := [0x34] + r4;
    var r2 := [0x33] + r3;
    var r1 := [0x32] + r2;
    OneByOne<bv8>(0x31, 0x32, 0x33, 0x34, 0x35, 0x36, 0x37, 0x38, 0x39);
    FeedFirst(0xFFFFFFFF, 0x31, r1, 0xFFFFFFCE, 0x7C231048);
    FeedFirst(0x7C231048, 0x32, r2, 0x7C23107A, 0xB0ACBB32);
    FeedFirst(0xB0ACBB32, 0x33, r3, 0xB0ACBB01, 0x77B79C2D);
    FeedFirst(0x77B79C2D, 0x34, r4, 0x77B79C19, 0x641C1F5C);
    FeedFirst(0x641C1F5C, 0x35, r5, 0x641C1F69, 0x340AC5E3);
    FeedFirst(0x340AC5E3, 0x36, r6, 0x340AC5D5, 0xF68D2C9E);
    FeedFirst(0xF68D2C9E, 0x37, r7, 0xF68D2CA9, 0xAFFC9660);
    FeedFirst(0xAFFC9660, 0x38, r8, 0xAFFC9658, 0x651F2550);
    FeedFirst(0x651F2550, 0x39, r9, 0x651F2569, 0x340BC6D9);
  }
}
