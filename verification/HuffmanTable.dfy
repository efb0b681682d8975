/**
  * The HPACK Huffman code table (Appendix B of RFC 7541), and the structure that
  * makes it a complete prefix code: it is canonical, so the codes of each length
  * are consecutive and start at twice the code after the last shorter one.
  */
module HuffmanTable {
  import opened Arith

  /** The end-of-string symbol, the one row that is not a byte. */
  const EOS: nat := 256

  /** The longest code. */
  const MAX_LEN: nat := 30

  datatype Row = Row(code: nat, len: nat)

  /** The table, by symbol. */
  function TableRow(sym: nat): (r: Row)
    requires sym <= EOS
  {
    match sym / 16
    case 0 => Rows0(sym % 16)
    case 1 => Rows1(sym % 16)
    case 2 => Rows2(sym % 16)
    case 3 => Rows3(sym % 16)
    case 4 => Rows4(sym % 16)
    case 5 => Rows5(sym % 16)
    case 6 => Rows6(sym % 16)
    case 7 => Rows7(sym % 16)
    case 8 => Rows8(sym % 16)
    case 9 => Rows9(sym % 16)
    case 10 => Rows10(sym % 16)
    case 11 => Rows11(sym % 16)
    case 12 => Rows12(sym % 16)
    case 13 => Rows13(sym % 16)
    case 14 => Rows14(sym % 16)
    case 15 => Rows15(sym % 16)
    case _ => Row(0x3fffffff, 30)
  }

  function Rows0(i: nat): (r: Row)
  {
    match i
    case 0 => Row(0x1ff8, 13) case 1 => Row(0x7fffd8, 23) case 2 => Row(0xfffffe2, 28)
    case 3 => Row(0xfffffe3, 28) case 4 => Row(0xfffffe4, 28) case 5 => Row(0xfffffe5, 28)
    case 6 => Row(0xfffffe6, 28) case 7 => Row(0xfffffe7, 28) case 8 => Row(0xfffffe8, 28)
    case 9 => Row(0xffffea, 24) case 10 => Row(0x3ffffffc, 30) case 11 => Row(0xfffffe9, 28)
    case 12 => Row(0xfffffea, 28) case 13 => Row(0x3ffffffd, 30) case 14 => Row(0xfffffeb, 28)
    case _ => Row(0xfffffec, 28)
  }

  function Rows1(i: nat): (r: Row)
  {
    match i
    case 0 => Row(0xfffffed, 28) case 1 => Row(0xfffffee, 28) case 2 => Row(0xfffffef, 28)
    case 3 => Row(0xffffff0, 28) case 4 => Row(0xffffff1, 28) case 5 => Row(0xffffff2, 28)
    case 6 => Row(0x3ffffffe, 30) case 7 => Row(0xffffff3, 28) case 8 => Row(0xffffff4, 28)
    case 9 => Row(0xffffff5, 28) case 10 => Row(0xffffff6, 28) case 11 => Row(0xffffff7, 28)
    case 12 => Row(0xffffff8, 28) case 13 => Row(0xffffff9, 28) case 14 => Row(0xffffffa, 28)
    case _ => Row(0xffffffb, 28)
  }

  function Rows2(i: nat): (r: Row)
  {
    match i
    case 0 => Row(0x14, 6) case 1 => Row(0x3f8, 10) case 2 => Row(0x3f9, 10) case 3 => Row(0xffa, 12)
    case 4 => Row(0x1ff9, 13) case 5 => Row(0x15, 6) case 6 => Row(0xf8, 8) case 7 => Row(0x7fa, 11)
    case 8 => Row(0x3fa, 10) case 9 => Row(0x3fb, 10) case 10 => Row(0xf9, 8) case 11 => Row(0x7fb, 11)
    case 12 => Row(0xfa, 8) case 13 => Row(0x16, 6) case 14 => Row(0x17, 6) case _ => Row(0x18, 6)
  }

  function Rows3(i: nat): (r: Row)
  {
    match i
    case 0 => Row(0x0, 5) case 1 => Row(0x1, 5) case 2 => Row(0x2, 5) case 3 => Row(0x19, 6)
    case 4 => Row(0x1a, 6) case 5 => Row(0x1b, 6) case 6 => Row(0x1c, 6) case 7 => Row(0x1d, 6)
    case 8 => Row(0x1e, 6) case 9 => Row(0x1f, 6) case 10 => Row(0x5c, 7) case 11 => Row(0xfb, 8)
    case 12 => Row(0x7ffc, 15) case 13 => Row(0x20, 6) case 14 => Row(0xffb, 12) case _ => Row(0x3fc, 10)
  }

  function Rows4(i: nat): (r: Row)
  {
    match i
    case 0 => Row(0x1ffa, 13) case 1 => Row(0x21, 6) case 2 => Row(0x5d, 7) case 3 => Row(0x5e, 7)
    case 4 => Row(0x5f, 7) case 5 => Row(0x60, 7) case 6 => Row(0x61, 7) case 7 => Row(0x62, 7)
    case 8 => Row(0x63, 7) case 9 => Row(0x64, 7) case 10 => Row(0x65, 7) case 11 => Row(0x66, 7)
    case 12 => Row(0x67, 7) case 13 => Row(0x68, 7) case 14 => Row(0x69, 7) case _ => Row(0x6a, 7)
  }

  function Rows5(i: nat): (r: Row)
  {
    match i
    case 0 => Row(0x6b, 7) case 1 => Row(0x6c, 7) case 2 => Row(0x6d, 7) case 3 => Row(0x6e, 7)
    case 4 => Row(0x6f, 7) case 5 => Row(0x70, 7) case 6 => Row(0x71, 7) case 7 => Row(0x72, 7)
    case 8 => Row(0xfc, 8) case 9 => Row(0x73, 7) case 10 => Row(0xfd, 8) case 11 => Row(0x1ffb, 13)
    case 12 => Row(0x7fff0, 19) case 13 => Row(0x1ffc, 13) case 14 => Row(0x3ffc, 14) case _ => Row(0x22, 6)
  }

  function Rows6(i: nat): (r: Row)
  {
    match i
    case 0 => Row(0x7ffd, 15) case 1 => Row(0x3, 5) case 2 => Row(0x23, 6) case 3 => Row(0x4, 5)
    case 4 => Row(0x24, 6) case 5 => Row(0x5, 5) case 6 => Row(0x25, 6) case 7 => Row(0x26, 6)
    case 8 => Row(0x27, 6) case 9 => Row(0x6, 5) case 10 => Row(0x74, 7) case 11 => Row(0x75, 7)
    case 12 => Row(0x28, 6) case 13 => Row(0x29, 6) case 14 => Row(0x2a, 6) case _ => Row(0x7, 5)
  }

  function Rows7(i: nat): (r: Row)
  {
    match i
    case 0 => Row(0x2b, 6) case 1 => Row(0x76, 7) case 2 => Row(0x2c, 6) case 3 => Row(0x8, 5)
    case 4 => Row(0x9, 5) case 5 => Row(0x2d, 6) case 6 => Row(0x77, 7) case 7 => Row(0x78, 7)
    case 8 => Row(0x79, 7) case 9 => Row(0x7a, 7) case 10 => Row(0x7b, 7) case 11 => Row(0x7ffe, 15)
    case 12 => Row(0x7fc, 11) case 13 => Row(0x3ffd, 14) case 14 => Row(0x1ffd, 13)
    case _ => Row(0xffffffc, 28)
  }

  function Rows8(i: nat): (r: Row)
  {
    match i
    case 0 => Row(0xfffe6, 20) case 1 => Row(0x3fffd2, 22) case 2 => Row(0xfffe7, 20)
    case 3 => Row(0xfffe8, 20) case 4 => Row(0x3fffd3, 22) case 5 => Row(0x3fffd4, 22)
    case 6 => Row(0x3fffd5, 22) case 7 => Row(0x7fffd9, 23) case 8 => Row(0x3fffd6, 22)
    case 9 => Row(0x7fffda, 23) case 10 => Row(0x7fffdb, 23) case 11 => Row(0x7fffdc, 23)
    case 12 => Row(0x7fffdd, 23) case 13 => Row(0x7fffde, 23) case 14 => Row(0xffffeb, 24)
    case _ => Row(0x7fffdf, 23)
  }

  function Rows9(i: nat): (r: Row)
  {
    match i
    case 0 => Row(0xffffec, 24) case 1 => Row(0xffffed, 24) case 2 => Row(0x3fffd7, 22)
    case 3 => Row(0x7fffe0, 23) case 4 => Row(0xffffee, 24) case 5 => Row(0x7fffe1, 23)
    case 6 => Row(0x7fffe2, 23) case 7 => Row(0x7fffe3, 23) case 8 => Row(0x7fffe4, 23)
    case 9 => Row(0x1fffdc, 21) case 10 => Row(0x3fffd8, 22) case 11 => Row(0x7fffe5, 23)
    case 12 => Row(0x3fffd9, 22) case 13 => Row(0x7fffe6, 23) case 14 => Row(0x7fffe7, 23)
    case _ => Row(0xffffef, 24)
  }

  function Rows10(i: nat): (r: Row)
  {
    match i
    case 0 => Row(0x3fffda, 22) case 1 => Row(0x1fffdd, 21) case 2 => Row(0xfffe9, 20)
    case 3 => Row(0x3fffdb, 22) case 4 => Row(0x3fffdc, 22) case 5 => Row(0x7fffe8, 23)
    case 6 => Row(0x7fffe9, 23) case 7 => Row(0x1fffde, 21) case 8 => Row(0x7fffea, 23)
    case 9 => Row(0x3fffdd, 22) case 10 => Row(0x3fffde, 22) case 11 => Row(0xfffff0, 24)
    case 12 => Row(0x1fffdf, 21) case 13 => Row(0x3fffdf, 22) case 14 => Row(0x7fffeb, 23)
    case _ => Row(0x7fffec, 23)
  }

  function Rows11(i: nat): (r: Row)
  {
    match i
    case 0 => Row(0x1fffe0, 21) case 1 => Row(0x1fffe1, 21) case 2 => Row(0x3fffe0, 22)
    case 3 => Row(0x1fffe2, 21) case 4 => Row(0x7fffed, 23) case 5 => Row(0x3fffe1, 22)
    case 6 => Row(0x7fffee, 23) case 7 => Row(0x7fffef, 23) case 8 => Row(0xfffea, 20)
    case 9 => Row(0x3fffe2, 22) case 10 => Row(0x3fffe3, 22) case 11 => Row(0x3fffe4, 22)
    case 12 => Row(0x7ffff0, 23) case 13 => Row(0x3fffe5, 22) case 14 => Row(0x3fffe6, 22)
    case _ => Row(0x7ffff1, 23)
  }

  function Rows12(i: nat): (r: Row)
  {
    match i
    case 0 => Row(0x3ffffe0, 26) case 1 => Row(0x3ffffe1, 26) case 2 => Row(0xfffeb, 20)
    case 3 => Row(0x7fff1, 19) case 4 => Row(0x3fffe7, 22) case 5 => Row(0x7ffff2, 23)
    case 6 => Row(0x3fffe8, 22) case 7 => Row(0x1ffffec, 25) case 8 => Row(0x3ffffe2, 26)
    case 9 => Row(0x3ffffe3, 26) case 10 => Row(0x3ffffe4, 26) case 11 => Row(0x7ffffde, 27)
    case 12 => Row(0x7ffffdf, 27) case 13 => Row(0x3ffffe5, 26) case 14 => Row(0xfffff1, 24)
    case _ => Row(0x1ffffed, 25)
  }

  function Rows13(i: nat): (r: Row)
  {
    match i
    case 0 => Row(0x7fff2, 19) case 1 => Row(0x1fffe3, 21) case 2 => Row(0x3ffffe6, 26)
    case 3 => Row(0x7ffffe0, 27) case 4 => Row(0x7ffffe1, 27) case 5 => Row(0x3ffffe7, 26)
    case 6 => Row(0x7ffffe2, 27) case 7 => Row(0xfffff2, 24) case 8 => Row(0x1fffe4, 21)
    case 9 => Row(0x1fffe5, 21) case 10 => Row(0x3ffffe8, 26) case 11 => Row(0x3ffffe9, 26)
    case 12 => Row(0xffffffd, 28) case 13 => Row(0x7ffffe3, 27) case 14 => Row(0x7ffffe4, 27)
    case _ => Row(0x7ffffe5, 27)
  }

  function Rows14(i: nat): (r: Row)
  {
    match i
    case 0 => Row(0xfffec, 20) case 1 => Row(0xfffff3, 24) case 2 => Row(0xfffed, 20)
    case 3 => Row(0x1fffe6, 21) case 4 => Row(0x3fffe9, 22) case 5 => Row(0x1fffe7, 21)
    case 6 => Row(0x1fffe8, 21) case 7 => Row(0x7ffff3, 23) case 8 => Row(0x3fffea, 22)
    case 9 => Row(0x3fffeb, 22) case 10 => Row(0x1ffffee, 25) case 11 => Row(0x1ffffef, 25)
    case 12 => Row(0xfffff4, 24) case 13 => Row(0xfffff5, 24) case 14 => Row(0x3ffffea, 26)
    case _ => Row(0x7ffff4, 23)
  }

  function Rows15(i: nat): (r: Row)
  {
    match i
    case 0 => Row(0x3ffffeb, 26) case 1 => Row(0x7ffffe6, 27) case 2 => Row(0x3ffffec, 26)
    case 3 => Row(0x3ffffed, 26) case 4 => Row(0x7ffffe7, 27) case 5 => Row(0x7ffffe8, 27)
    case 6 => Row(0x7ffffe9, 27) case 7 => Row(0x7ffffea, 27) case 8 => Row(0x7ffffeb, 27)
    case 9 => Row(0xffffffe, 28) case 10 => Row(0x7ffffec, 27) case 11 => Row(0x7ffffed, 27)
    case 12 => Row(0x7ffffee, 27) case 13 => Row(0x7ffffef, 27) case 14 => Row(0x7fffff0, 27)
    case _ => Row(0x3ffffee, 26)
  }

  /** The symbol whose code is the `k`-th of `len` bits. */
  function SymbolAt(len: nat, k: nat): (sym: nat)
  {
    match len
    case 5 => Symbols5(k)
    case 6 => Symbols6(k)
    case 7 => Symbols7(k)
    case 8 => Symbols8(k)
    case 10 => Symbols10(k)
    case 11 => Symbols11(k)
    case 12 => Symbols12(k)
    case 13 => Symbols13(k)
    case 14 => Symbols14(k)
    case 15 => Symbols15(k)
    case 19 => Symbols19(k)
    case 20 => Symbols20(k)
    case 21 => Symbols21(k)
    case 22 => Symbols22(k)
    case 23 => Symbols23(k)
    case 24 => Symbols24(k)
    case 25 => Symbols25(k)
    case 26 => Symbols26(k)
    case 27 => Symbols27(k)
    case 28 => Symbols28(k)
    case 30 => Symbols30(k)
    case _ => 0
  }

  function Symbols5(k: nat): (sym: nat)
  {
    match k
    case 0 => 48 case 1 => 49 case 2 => 50 case 3 => 97 case 4 => 99 case 5 => 101 case 6 => 105 case 7 => 111
    case 8 => 115 case _ => 116
  }

  function Symbols6(k: nat): (sym: nat)
  {
    match k
    case 0 => 32 case 1 => 37 case 2 => 45 case 3 => 46 case 4 => 47 case 5 => 51 case 6 => 52 case 7 => 53
    case 8 => 54 case 9 => 55 case 10 => 56 case 11 => 57 case 12 => 61 case 13 => 65 case 14 => 95
    case 15 => 98 case 16 => 100 case 17 => 102 case 18 => 103 case 19 => 104 case 20 => 108 case 21 => 109
    case 22 => 110 case 23 => 112 case 24 => 114 case _ => 117
  }

  function Symbols7(k: nat): (sym: nat)
  {
    match k
    case 0 => 58 case 1 => 66 case 2 => 67 case 3 => 68 case 4 => 69 case 5 => 70 case 6 => 71 case 7 => 72
    case 8 => 73 case 9 => 74 case 10 => 75 case 11 => 76 case 12 => 77 case 13 => 78 case 14 => 79
    case 15 => 80 case 16 => 81 case 17 => 82 case 18 => 83 case 19 => 84 case 20 => 85 case 21 => 86
    case 22 => 87 case 23 => 89 case 24 => 106 case 25 => 107 case 26 => 113 case 27 => 118 case 28 => 119
    case 29 => 120 case 30 => 121 case _ => 122
  }

  function Symbols8(k: nat): (sym: nat)
  {
    match k
    case 0 => 38 case 1 => 42 case 2 => 44 case 3 => 59 case 4 => 88 case _ => 90
  }

  function Symbols10(k: nat): (sym: nat)
  {
    match k
    case 0 => 33 case 1 => 34 case 2 => 40 case 3 => 41 case _ => 63
  }

  function Symbols11(k: nat): (sym: nat)
  {
    match k
    case 0 => 39 case 1 => 43 case _ => 124
  }

  function Symbols12(k: nat): (sym: nat)
  {
    match k
    case 0 => 35 case _ => 62
  }

  function Symbols13(k: nat): (sym: nat)
  {
    match k
    case 0 => 0 case 1 => 36 case 2 => 64 case 3 => 91 case 4 => 93 case _ => 126
  }

  function Symbols14(k: nat): (sym: nat)
  {
    match k
    case 0 => 94 case _ => 125
  }

  function Symbols15(k: nat): (sym: nat)
  {
    match k
    case 0 => 60 case 1 => 96 case _ => 123
  }

  function Symbols19(k: nat): (sym: nat)
  {
    match k
    case 0 => 92 case 1 => 195 case _ => 208
  }

  function Symbols20(k: nat): (sym: nat)
  {
    match k
    case 0 => 128 case 1 => 130 case 2 => 131 case 3 => 162 case 4 => 184 case 5 => 194 case 6 => 224
    case _ => 226
  }

  function Symbols21(k: nat): (sym: nat)
  {
    match k
    case 0 => 153 case 1 => 161 case 2 => 167 case 3 => 172 case 4 => 176 case 5 => 177 case 6 => 179
    case 7 => 209 case 8 => 216 case 9 => 217 case 10 => 227 case 11 => 229 case _ => 230
  }

  function Symbols22(k: nat): (sym: nat)
  {
    match k
    case 0 => 129 case 1 => 132 case 2 => 133 case 3 => 134 case 4 => 136 case 5 => 146 case 6 => 154
    case 7 => 156 case 8 => 160 case 9 => 163 case 10 => 164 case 11 => 169 case 12 => 170 case 13 => 173
    case 14 => 178 case 15 => 181 case 16 => 185 case 17 => 186 case 18 => 187 case 19 => 189 case 20 => 190
    case 21 => 196 case 22 => 198 case 23 => 228 case 24 => 232 case _ => 233
  }

  function Symbols23(k: nat): (sym: nat)
  {
    match k
    case 0 => 1 case 1 => 135 case 2 => 137 case 3 => 138 case 4 => 139 case 5 => 140 case 6 => 141
    case 7 => 143 case 8 => 147 case 9 => 149 case 10 => 150 case 11 => 151 case 12 => 152 case 13 => 155
    case 14 => 157 case 15 => 158 case 16 => 165 case 17 => 166 case 18 => 168 case 19 => 174 case 20 => 175
    case 21 => 180 case 22 => 182 case 23 => 183 case 24 => 188 case 25 => 191 case 26 => 197 case 27 => 231
    case _ => 239
  }

  function Symbols24(k: nat): (sym: nat)
  {
    match k
    case 0 => 9 case 1 => 142 case 2 => 144 case 3 => 145 case 4 => 148 case 5 => 159 case 6 => 171
    case 7 => 206 case 8 => 215 case 9 => 225 case 10 => 236 case _ => 237
  }

  function Symbols25(k: nat): (sym: nat)
  {
    match k
    case 0 => 199 case 1 => 207 case 2 => 234 case _ => 235
  }

  function Symbols26(k: nat): (sym: nat)
  {
    match k
    case 0 => 192 case 1 => 193 case 2 => 200 case 3 => 201 case 4 => 202 case 5 => 205 case 6 => 210
    case 7 => 213 case 8 => 218 case 9 => 219 case 10 => 238 case 11 => 240 case 12 => 242 case 13 => 243
    case _ => 255
  }

  function Symbols27(k: nat): (sym: nat)
  {
    match k
    case 0 => 203 case 1 => 204 case 2 => 211 case 3 => 212 case 4 => 214 case 5 => 221 case 6 => 222
    case 7 => 223 case 8 => 241 case 9 => 244 case 10 => 245 case 11 => 246 case 12 => 247 case 13 => 248
    case 14 => 250 case 15 => 251 case 16 => 252 case 17 => 253 case _ => 254
  }

  function Symbols28(k: nat): (sym: nat)
  {
    match k
    case 0 => 2 case 1 => 3 case 2 => 4 case 3 => 5 case 4 => 6 case 5 => 7 case 6 => 8 case 7 => 11
    case 8 => 12 case 9 => 14 case 10 => 15 case 11 => 16 case 12 => 17 case 13 => 18 case 14 => 19
    case 15 => 20 case 16 => 21 case 17 => 23 case 18 => 24 case 19 => 25 case 20 => 26 case 21 => 27
    case 22 => 28 case 23 => 29 case 24 => 30 case 25 => 31 case 26 => 127 case 27 => 220 case _ => 249
  }

  function Symbols30(k: nat): (sym: nat)
  {
    match k
    case 0 => 10 case 1 => 13 case 2 => 22 case _ => 256
  }

  /** How many codes have `len` bits. */
  function Count(len: nat): (n: nat)
  {
    match len
    case 5 => 10
    case 6 => 26
    case 7 => 32
    case 8 => 6
    case 10 => 5
    case 11 => 3
    case 12 => 2
    case 13 => 6
    case 14 => 2
    case 15 => 3
    case 19 => 3
    case 20 => 8
    case 21 => 13
    case 22 => 26
    case 23 => 29
    case 24 => 12
    case 25 => 4
    case 26 => 15
    case 27 => 19
    case 28 => 29
    case 30 => 4
    case _ => 0
  }

  /** The first code of `len` bits. */
  function FirstCode(len: nat): (c: nat)
  {
    match len
    case 6 => 0x14
    case 7 => 0x5c
    case 8 => 0xf8
    case 9 => 0x1fc
    case 10 => 0x3f8
    case 11 => 0x7fa
    case 12 => 0xffa
    case 13 => 0x1ff8
    case 14 => 0x3ffc
    case 15 => 0x7ffc
    case 16 => 0xfffe
    case 17 => 0x1fffc
    case 18 => 0x3fff8
    case 19 => 0x7fff0
    case 20 => 0xfffe6
    case 21 => 0x1fffdc
    case 22 => 0x3fffd2
    case 23 => 0x7fffd8
    case 24 => 0xffffea
    case 25 => 0x1ffffec
    case 26 => 0x3ffffe0
    case 27 => 0x7ffffde
    case 28 => 0xfffffe2
    case 29 => 0x1ffffffe
    case 30 => 0x3ffffffc
    case _ => 0
  }

  /** The code after the last one of `len` bits. */
  function NextCode(len: nat): (c: nat)
  {
    FirstCode(len) + Count(len)
  }

  /** The codes tile the whole space: each length starts where the shorter ones stop, and 30 bits fill it up. */
  lemma Tiling(len: nat)
    requires len < MAX_LEN
    ensures FirstCode(len + 1) == 2 * NextCode(len)
    ensures NextCode(0) == 0 && NextCode(MAX_LEN) == 0x4000_0000
  {
  }

  lemma PowOfMaxLen()
    ensures Pow2(MAX_LEN) == 0x4000_0000
  {
    assert Pow2(10) == 1024 && Pow2(15) == 32768 && Pow2(20) == 1048576 && Pow2(25) == 33554432;
  }

  /** Where a symbol's row sits among the codes of its length. */
  predicate Placed(sym: nat)
    requires sym <= EOS
  {
    var r := TableRow(sym);
    && 5 <= r.len <= MAX_LEN
    && FirstCode(r.len) <= r.code < NextCode(r.len)
    && SymbolAt(r.len, r.code - FirstCode(r.len)) == sym
  }

  lemma Placed0(sym: nat)
    requires 0 <= sym < 32
    ensures Placed(sym)
  {
  }

  lemma Placed1(sym: nat)
    requires 32 <= sym < 64
    ensures Placed(sym)
  {
  }

  lemma Placed2(sym: nat)
    requires 64 <= sym < 96
    ensures Placed(sym)
  {
  }

  lemma Placed3(sym: nat)
    requires 96 <= sym < 128
    ensures Placed(sym)
  {
  }

  lemma Placed4(sym: nat)
    requires 128 <= sym < 160
    ensures Placed(sym)
  {
  }

  lemma Placed5(sym: nat)
    requires 160 <= sym < 192
    ensures Placed(sym)
  {
  }

  lemma Placed6(sym: nat)
    requires 192 <= sym < 224
    ensures Placed(sym)
  {
  }

  lemma Placed7(sym: nat)
    requires 224 <= sym < 257
    ensures Placed(sym)
  {
  }

  /** Every row of the table is in its canonical place. */
  lemma EveryRowPlaced(sym: nat)
    requires sym <= EOS
    ensures Placed(sym)
  {
    hide TableRow, SymbolAt, FirstCode, Count;
    if sym < 32 {
      Placed0(sym);
    } else if sym < 64 {
      Placed1(sym);
    } else if sym < 96 {
      Placed2(sym);
    } else if sym < 128 {
      Placed3(sym);
    } else if sym < 160 {
      Placed4(sym);
    } else if sym < 192 {
      Placed5(sym);
    } else if sym < 224 {
      Placed6(sym);
    } else {
      Placed7(sym);
    }
  }

  /** The row a place of the canonical code names. */
  predicate Filled(len: nat, k: nat) {
    SymbolAt(len, k) <= EOS && TableRow(SymbolAt(len, k)) == Row(FirstCode(len) + k, len)
  }

  lemma Filled0(len: nat, k: nat)
    requires 0 <= len < 6 && k < Count(len)
    ensures Filled(len, k)
  {
  }

  lemma Filled1(len: nat, k: nat)
    requires 6 <= len < 7 && k < Count(len)
    ensures Filled(len, k)
  {
  }

  lemma Filled2(len: nat, k: nat)
    requires 7 <= len < 8 && k < Count(len)
    ensures Filled(len, k)
  {
  }

  lemma Filled3(len: nat, k: nat)
    requires 8 <= len < 12 && k < Count(len)
    ensures Filled(len, k)
  {
  }

  lemma Filled4(len: nat, k: nat)
    requires 12 <= len < 14 && k < Count(len)
    ensures Filled(len, k)
  {
  }

  lemma Filled5(len: nat, k: nat)
    requires 14 <= len < 20 && k < Count(len)
    ensures Filled(len, k)
  {
  }

  lemma Filled6(len: nat, k: nat)
    requires 20 <= len < 22 && k < Count(len)
    ensures Filled(len, k)
  {
  }

  lemma Filled7(len: nat, k: nat)
    requires 22 <= len < 23 && k < Count(len)
    ensures Filled(len, k)
  {
  }

  lemma Filled8(len: nat, k: nat)
    requires 23 <= len < 24 && k < Count(len)
    ensures Filled(len, k)
  {
  }

  lemma Filled9(len: nat, k: nat)
    requires 24 <= len < 26 && k < Count(len)
    ensures Filled(len, k)
  {
  }

  lemma Filled10(len: nat, k: nat)
    requires 26 <= len < 27 && k < Count(len)
    ensures Filled(len, k)
  {
  }

  lemma Filled11(len: nat, k: nat)
    requires 27 <= len < 28 && k < Count(len)
    ensures Filled(len, k)
  {
  }

  lemma Filled12(len: nat, k: nat)
    requires 28 <= len < 31 && k < Count(len)
    ensures Filled(len, k)
  {
  }

  /** Every place of the canonical code is taken by a row of the table. */
  lemma EveryPlaceFilled(len: nat, k: nat)
    requires k < Count(len)
    ensures len <= MAX_LEN && Filled(len, k)
  {
    assert len <= MAX_LEN;
    hide TableRow, SymbolAt, FirstCode;
    if len < 6 {
      Filled0(len, k);
    } else if len < 7 {
      Filled1(len, k);
    } else if len < 8 {
      Filled2(len, k);
    } else if len < 12 {
      Filled3(len, k);
    } else if len < 14 {
      Filled4(len, k);
    } else if len < 20 {
      Filled5(len, k);
    } else if len < 22 {
      Filled6(len, k);
    } else if len < 23 {
      Filled7(len, k);
    } else if len < 24 {
      Filled8(len, k);
    } else if len < 26 {
      Filled9(len, k);
    } else if len < 27 {
      Filled10(len, k);
    } else if len < 28 {
      Filled11(len, k);
    } else {
      Filled12(len, k);
    }
  }
}
