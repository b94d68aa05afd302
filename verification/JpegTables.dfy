/** The tables the JPEG writer sends and uses, and that its words are those the reader makes of the headers. */
module JpegTables {
  import opened Bits
  import opened JpegCode
  import opened JpegHuffman
  import opened JpegDecode
  import opened JpegRoundTrip

  /** A word as a number and its length; length 0 for symbols that have none. */
  type Pair = (nat, nat)

  // ----- the writer's words; in the tables for coefficients, those of sixteen bits run on from row to row

  /** Differences of the brightness. */
  function YdcAt(s: nat): Pair {
    match s
    case 0 => (0, 2) case 1 => (2, 3) case 2 => (3, 3) case 3 => (4, 3) case 4 => (5, 3) case 5 => (6, 3)
    case 6 => (14, 4) case 7 => (30, 5) case 8 => (62, 6) case 9 => (126, 7) case 10 => (254, 8) case 11 => (510, 9)
    case _ => (0, 0)
  }

  /** Differences of the colours. */
  function UvdcAt(s: nat): Pair {
    match s
    case 0 => (0, 2) case 1 => (1, 2) case 2 => (2, 2) case 3 => (6, 3) case 4 => (14, 4) case 5 => (30, 5)
    case 6 => (62, 6) case 7 => (126, 7) case 8 => (254, 8) case 9 => (510, 9) case 10 => (1022, 10)
    case 11 => (2046, 11) case _ => (0, 0)
  }

  function YacRow0(c: nat): Pair {
    match c
    case 0 => (10, 4) case 1 => (0, 2) case 2 => (1, 2) case 3 => (4, 3) case 4 => (11, 4) case 5 => (26, 5)
    case 6 => (120, 7) case 7 => (248, 8) case 8 => (1014, 10)
    case _ => if 9 <= c <= 10 then (65401 + c, 16) else (0, 0)
  }

  function YacRow1(c: nat): Pair {
    match c
    case 1 => (12, 4) case 2 => (27, 5) case 3 => (121, 7) case 4 => (502, 9) case 5 => (2038, 11)
    case _ => if 6 <= c <= 10 then (65406 + c, 16) else (0, 0)
  }

  function YacRow2(c: nat): Pair {
    match c
    case 1 => (28, 5) case 2 => (249, 8) case 3 => (1015, 10) case 4 => (4084, 12)
    case _ => if 5 <= c <= 10 then (65412 + c, 16) else (0, 0)
  }

  function YacRow3(c: nat): Pair {
    match c
    case 1 => (58, 6) case 2 => (503, 9) case 3 => (4085, 12)
    case _ => if 4 <= c <= 10 then (65419 + c, 16) else (0, 0)
  }

  function YacRow4(c: nat): Pair {
    match c
    case 1 => (59, 6) case 2 => (1016, 10) case _ => if 3 <= c <= 10 then (65427 + c, 16) else (0, 0)
  }

  function YacRow5(c: nat): Pair {
    match c
    case 1 => (122, 7) case 2 => (2039, 11) case _ => if 3 <= c <= 10 then (65435 + c, 16) else (0, 0)
  }

  function YacRow6(c: nat): Pair {
    match c
    case 1 => (123, 7) case 2 => (4086, 12) case _ => if 3 <= c <= 10 then (65443 + c, 16) else (0, 0)
  }

  function YacRow7(c: nat): Pair {
    match c
    case 1 => (250, 8) case 2 => (4087, 12) case _ => if 3 <= c <= 10 then (65451 + c, 16) else (0, 0)
  }

  function YacRow8(c: nat): Pair {
    match c
    case 1 => (504, 9) case 2 => (32704, 15) case _ => if 3 <= c <= 10 then (65459 + c, 16) else (0, 0)
  }

  function YacRow9(c: nat): Pair {
    match c
    case 1 => (505, 9) case _ => if 2 <= c <= 10 then (65468 + c, 16) else (0, 0)
  }

  function YacRow10(c: nat): Pair {
    match c
    case 1 => (506, 9) case _ => if 2 <= c <= 10 then (65477 + c, 16) else (0, 0)
  }

  function YacRow11(c: nat): Pair {
    match c
    case 1 => (1017, 10) case _ => if 2 <= c <= 10 then (65486 + c, 16) else (0, 0)
  }

  function YacRow12(c: nat): Pair {
    match c
    case 1 => (1018, 10) case _ => if 2 <= c <= 10 then (65495 + c, 16) else (0, 0)
  }

  function YacRow13(c: nat): Pair {
    match c
    case 1 => (2040, 11) case _ => if 2 <= c <= 10 then (65504 + c, 16) else (0, 0)
  }

  function YacRow14(c: nat): Pair {
    match c
    case _ => if 1 <= c <= 10 then (65514 + c, 16) else (0, 0)
  }

  function YacRow15(c: nat): Pair {
    match c
    case 0 => (2041, 11) case _ => if 1 <= c <= 10 then (65524 + c, 16) else (0, 0)
  }

  /** Other coefficients of the brightness. */
  function YacAt(s: nat): Pair {
    match s / 16
    case 0 => YacRow0(s % 16) case 1 => YacRow1(s % 16) case 2 => YacRow2(s % 16) case 3 => YacRow3(s % 16)
    case 4 => YacRow4(s % 16) case 5 => YacRow5(s % 16) case 6 => YacRow6(s % 16) case 7 => YacRow7(s % 16)
    case 8 => YacRow8(s % 16) case 9 => YacRow9(s % 16) case 10 => YacRow10(s % 16) case 11 => YacRow11(s % 16)
    case 12 => YacRow12(s % 16) case 13 => YacRow13(s % 16) case 14 => YacRow14(s % 16) case 15 => YacRow15(s % 16)
    case _ => (0, 0)
  }

  function UvacRow0(c: nat): Pair {
    match c
    case 0 => (0, 2) case 1 => (1, 2) case 2 => (4, 3) case 3 => (10, 4) case 4 => (24, 5) case 5 => (25, 5)
    case 6 => (56, 6) case 7 => (120, 7) case 8 => (500, 9) case 9 => (1014, 10) case 10 => (4084, 12)
    case _ => (0, 0)
  }

  function UvacRow1(c: nat): Pair {
    match c
    case 1 => (11, 4) case 2 => (57, 6) case 3 => (246, 8) case 4 => (501, 9) case 5 => (2038, 11)
    case 6 => (4085, 12) case _ => if 7 <= c <= 10 then (65409 + c, 16) else (0, 0)
  }

  function UvacRow2(c: nat): Pair {
    match c
    case 1 => (26, 5) case 2 => (247, 8) case 3 => (1015, 10) case 4 => (4086, 12) case 5 => (32706, 15)
    case _ => if 6 <= c <= 10 then (65414 + c, 16) else (0, 0)
  }

  function UvacRow3(c: nat): Pair {
    match c
    case 1 => (27, 5) case 2 => (248, 8) case 3 => (1016, 10) case 4 => (4087, 12)
    case _ => if 5 <= c <= 10 then (65420 + c, 16) else (0, 0)
  }

  function UvacRow4(c: nat): Pair {
    match c
    case 1 => (58, 6) case 2 => (502, 9) case _ => if 3 <= c <= 10 then (65428 + c, 16) else (0, 0)
  }

  function UvacRow5(c: nat): Pair {
    match c
    case 1 => (59, 6) case 2 => (1017, 10) case _ => if 3 <= c <= 10 then (65436 + c, 16) else (0, 0)
  }

  function UvacRow6(c: nat): Pair {
    match c
    case 1 => (121, 7) case 2 => (2039, 11) case _ => if 3 <= c <= 10 then (65444 + c, 16) else (0, 0)
  }

  function UvacRow7(c: nat): Pair {
    match c
    case 1 => (122, 7) case 2 => (2040, 11) case _ => if 3 <= c <= 10 then (65452 + c, 16) else (0, 0)
  }

  function UvacRow8(c: nat): Pair {
    match c
    case 1 => (249, 8) case _ => if 2 <= c <= 10 then (65461 + c, 16) else (0, 0)
  }

  function UvacRow9(c: nat): Pair {
    match c
    case 1 => (503, 9) case _ => if 2 <= c <= 10 then (65470 + c, 16) else (0, 0)
  }

  function UvacRow10(c: nat): Pair {
    match c
    case 1 => (504, 9) case _ => if 2 <= c <= 10 then (65479 + c, 16) else (0, 0)
  }

  function UvacRow11(c: nat): Pair {
    match c
    case 1 => (505, 9) case _ => if 2 <= c <= 10 then (65488 + c, 16) else (0, 0)
  }

  function UvacRow12(c: nat): Pair {
    match c
    case 1 => (506, 9) case _ => if 2 <= c <= 10 then (65497 + c, 16) else (0, 0)
  }

  function UvacRow13(c: nat): Pair {
    match c
    case 1 => (2041, 11) case _ => if 2 <= c <= 10 then (65506 + c, 16) else (0, 0)
  }

  function UvacRow14(c: nat): Pair {
    match c
    case 1 => (16352, 14) case _ => if 2 <= c <= 10 then (65515 + c, 16) else (0, 0)
  }

  function UvacRow15(c: nat): Pair {
    match c
    case 0 => (1018, 10) case 1 => (32707, 15) case _ => if 2 <= c <= 10 then (65524 + c, 16) else (0, 0)
  }

  /** Other coefficients of the colours. */
  function UvacAt(s: nat): Pair {
    match s / 16
    case 0 => UvacRow0(s % 16) case 1 => UvacRow1(s % 16) case 2 => UvacRow2(s % 16) case 3 => UvacRow3(s % 16)
    case 4 => UvacRow4(s % 16) case 5 => UvacRow5(s % 16) case 6 => UvacRow6(s % 16) case 7 => UvacRow7(s % 16)
    case 8 => UvacRow8(s % 16) case 9 => UvacRow9(s % 16) case 10 => UvacRow10(s % 16) case 11 => UvacRow11(s % 16)
    case 12 => UvacRow12(s % 16) case 13 => UvacRow13(s % 16) case 14 => UvacRow14(s % 16)
    case 15 => UvacRow15(s % 16) case _ => (0, 0)
  }

  // ----- the headers

  function YdcCount(): (c: seq<nat>)
    ensures |c| == 16
  {
    [0, 1, 5, 1, 1, 1, 1, 1] + [1, 0, 0, 0, 0, 0, 0, 0]
  }

  function YdcUpto(n: nat): nat {
    match n
    case 0 => 0 case 1 => 0 case 2 => 1 case 3 => 6 case 4 => 7 case 5 => 8 case 6 => 9 case 7 => 10 case 8 => 11
    case 9 => 12 case 10 => 12 case 11 => 12 case 12 => 12 case 13 => 12 case 14 => 12 case 15 => 12 case _ => 12
  }

  function UvdcCount(): (c: seq<nat>)
    ensures |c| == 16
  {
    [0, 3, 1, 1, 1, 1, 1, 1] + [1, 1, 1, 0, 0, 0, 0, 0]
  }

  function UvdcUpto(n: nat): nat {
    match n
    case 0 => 0 case 1 => 0 case 2 => 3 case 3 => 4 case 4 => 5 case 5 => 6 case 6 => 7 case 7 => 8 case 8 => 9
    case 9 => 10 case 10 => 11 case 11 => 12 case 12 => 12 case 13 => 12 case 14 => 12 case 15 => 12 case _ => 12
  }

  function YacCount(): (c: seq<nat>)
    ensures |c| == 16
  {
    [0, 2, 1, 3, 3, 2, 4, 3] + [5, 5, 4, 4, 0, 0, 1, 125]
  }

  function YacUpto(n: nat): nat {
    match n
    case 0 => 0 case 1 => 0 case 2 => 2 case 3 => 3 case 4 => 6 case 5 => 9 case 6 => 11 case 7 => 15 case 8 => 18
    case 9 => 23 case 10 => 28 case 11 => 32 case 12 => 36 case 13 => 36 case 14 => 36 case 15 => 37 case _ => 162
  }

  function UvacCount(): (c: seq<nat>)
    ensures |c| == 16
  {
    [0, 2, 1, 2, 4, 4, 3, 4] + [7, 5, 4, 4, 0, 1, 2, 119]
  }

  function UvacUpto(n: nat): nat {
    match n
    case 0 => 0 case 1 => 0 case 2 => 2 case 3 => 3 case 4 => 5 case 5 => 9 case 6 => 13 case 7 => 16 case 8 => 20
    case 9 => 27 case 10 => 32 case 11 => 36 case 12 => 40 case 13 => 40 case 14 => 41 case 15 => 43 case _ => 162
  }

  function YacShortValue(k: nat): byte {
    match k
    case 0 => 0x01 case 1 => 0x02 case 2 => 0x03 case 3 => 0x00 case 4 => 0x04 case 5 => 0x11 case 6 => 0x05
    case 7 => 0x12 case 8 => 0x21 case 9 => 0x31 case 10 => 0x41 case 11 => 0x06 case 12 => 0x13 case 13 => 0x51
    case 14 => 0x61 case 15 => 0x07 case 16 => 0x22 case 17 => 0x71 case 18 => 0x14 case 19 => 0x32 case 20 => 0x81
    case 21 => 0x91 case 22 => 0xa1 case 23 => 0x08 case 24 => 0x23 case 25 => 0x42 case 26 => 0xb1 case 27 => 0xc1
    case 28 => 0x15 case 29 => 0x52 case 30 => 0xd1 case 31 => 0xf0 case 32 => 0x24 case 33 => 0x33 case 34 => 0x62
    case 35 => 0x72 case 36 => 0x82 case _ => 0
  }

  /** The symbols in the order of their words. */
  function YacValue(k: nat): byte {
    if k < 37 then YacShortValue(k)
    else if k < 39 then k - 28
    else if k < 44 then k - 17
    else if k < 50 then k - 7
    else if k < 57 then k + 2
    else if k < 65 then k + 10
    else if k < 73 then k + 18
    else if k < 81 then k + 26
    else if k < 89 then k + 34
    else if k < 97 then k + 42
    else if k < 106 then k + 49
    else if k < 115 then k + 56
    else if k < 124 then k + 63
    else if k < 133 then k + 70
    else if k < 142 then k + 77
    else if k < 152 then k + 83
    else if k < 162 then k + 89
    else 0
  }

  function UvacShortValue(k: nat): byte {
    match k
    case 0 => 0x00 case 1 => 0x01 case 2 => 0x02 case 3 => 0x03 case 4 => 0x11 case 5 => 0x04 case 6 => 0x05
    case 7 => 0x21 case 8 => 0x31 case 9 => 0x06 case 10 => 0x12 case 11 => 0x41 case 12 => 0x51 case 13 => 0x07
    case 14 => 0x61 case 15 => 0x71 case 16 => 0x13 case 17 => 0x22 case 18 => 0x32 case 19 => 0x81 case 20 => 0x08
    case 21 => 0x14 case 22 => 0x42 case 23 => 0x91 case 24 => 0xa1 case 25 => 0xb1 case 26 => 0xc1 case 27 => 0x09
    case 28 => 0x23 case 29 => 0x33 case 30 => 0x52 case 31 => 0xf0 case 32 => 0x15 case 33 => 0x62 case 34 => 0x72
    case 35 => 0xd1 case 36 => 0x0a case 37 => 0x16 case 38 => 0x24 case 39 => 0x34 case 40 => 0xe1 case 41 => 0x25
    case 42 => 0xf1 case _ => 0
  }

  /** The symbols in the order of their words. */
  function UvacValue(k: nat): byte {
    if k < 43 then UvacShortValue(k)
    else if k < 47 then k - 20
    else if k < 52 then k - 9
    else if k < 58 then k + 1
    else if k < 66 then k + 9
    else if k < 74 then k + 17
    else if k < 82 then k + 25
    else if k < 90 then k + 33
    else if k < 99 then k + 40
    else if k < 108 then k + 47
    else if k < 117 then k + 54
    else if k < 126 then k + 61
    else if k < 135 then k + 68
    else if k < 144 then k + 75
    else if k < 153 then k + 82
    else if k < 162 then k + 89
    else 0
  }

  // ----- symbols and positions

  /** End of block, sixteen zeros, and runs of at most fifteen before values of one to ten bits. */
  predicate IsNeeded(s: nat) {
    s == 0 || s == 0xf0 || (s < 256 && 1 <= s % 16 <= 10)
  }

  /** The first number of sixteen bits that begins with the word `c` of `n` bits. */
  function Left(c: nat, n: nat): nat {
    match n
    case 1 => 32768 * c case 2 => 16384 * c case 3 => 8192 * c case 4 => 4096 * c case 5 => 2048 * c
    case 6 => 1024 * c case 7 => 512 * c case 8 => 256 * c case 9 => 128 * c case 10 => 64 * c case 11 => 32 * c
    case 12 => 16 * c case 13 => 8 * c case 14 => 4 * c case 15 => 2 * c case _ => c
  }

  /** The first word is 0, each other one begins where the one before ends, and the last one of `n` leaves room. */
  predicate Follows(k: nat, p: Pair, q: Pair, n: nat) {
    && (k == 0 ==> p.0 == 0)
    && (k + 1 < n ==> Left(q.0, q.1) == Left(p.0 + 1, p.1))
    && (k + 1 == n ==> Left(p.0 + 1, p.1) <= 0x1_0000)
  }

  predicate WordOk(k: nat, s: nat, p: Pair, q: Pair, n: nat) {
    IsNeeded(s) && 1 <= p.1 <= 16 && Follows(k, p, q, n)
  }

  /** Word `k` is the writer's for its symbol, has its length, and begins where the word before ends. */
  predicate YacOk(k: nat) {
    var s := YacValue(k);
    WordOk(k, s, YacAt(s), YacAt(YacValue(k + 1)), 162) && YacUpto(YacAt(s).1 - 1) <= k < YacUpto(YacAt(s).1)
  }

  predicate YacIs(k: nat, s: byte, p: Pair) {
    YacValue(k) == s && YacAt(s) == p
  }

  lemma YacWords0()
    ensures YacIs(0, 0x01, (0, 2)) && YacIs(1, 0x02, (1, 2)) && YacIs(2, 0x03, (4, 3)) && YacIs(3, 0x00, (10, 4))
         && YacIs(4, 0x04, (11, 4))
  {
  }

  lemma YacWords1()
    ensures YacIs(5, 0x11, (12, 4)) && YacIs(6, 0x05, (26, 5)) && YacIs(7, 0x12, (27, 5)) && YacIs(8, 0x21, (28, 5))
         && YacIs(9, 0x31, (58, 6))
  {
  }

  lemma YacWords2()
    ensures YacIs(10, 0x41, (59, 6)) && YacIs(11, 0x06, (120, 7)) && YacIs(12, 0x13, (121, 7))
         && YacIs(13, 0x51, (122, 7)) && YacIs(14, 0x61, (123, 7))
  {
  }

  lemma YacWords3()
    ensures YacIs(15, 0x07, (248, 8)) && YacIs(16, 0x22, (249, 8)) && YacIs(17, 0x71, (250, 8))
         && YacIs(18, 0x14, (502, 9)) && YacIs(19, 0x32, (503, 9))
  {
  }

  lemma YacWords4()
    ensures YacIs(20, 0x81, (504, 9)) && YacIs(21, 0x91, (505, 9)) && YacIs(22, 0xa1, (506, 9))
         && YacIs(23, 0x08, (1014, 10)) && YacIs(24, 0x23, (1015, 10))
  {
  }

  lemma YacWords5()
    ensures YacIs(25, 0x42, (1016, 10)) && YacIs(26, 0xb1, (1017, 10)) && YacIs(27, 0xc1, (1018, 10))
         && YacIs(28, 0x15, (2038, 11)) && YacIs(29, 0x52, (2039, 11))
  {
  }

  lemma YacWords6()
    ensures YacIs(30, 0xd1, (2040, 11)) && YacIs(31, 0xf0, (2041, 11)) && YacIs(32, 0x24, (4084, 12))
         && YacIs(33, 0x33, (4085, 12)) && YacIs(34, 0x62, (4086, 12))
  {
  }

  lemma YacWords7()
    ensures YacIs(35, 0x72, (4087, 12)) && YacIs(36, 0x82, (32704, 15))
  {
  }

  lemma YacTail(k: nat)
    requires 37 <= k < 162
    ensures YacAt(YacValue(k)) == (65410 + k - 37, 16) && IsNeeded(YacValue(k))
  {
  }

  /** Word `k` is the writer's for its symbol, has its length, and begins where the word before ends. */
  predicate UvacOk(k: nat) {
    var s := UvacValue(k);
    WordOk(k, s, UvacAt(s), UvacAt(UvacValue(k + 1)), 162) && UvacUpto(UvacAt(s).1 - 1) <= k < UvacUpto(UvacAt(s).1)
  }

  predicate UvacIs(k: nat, s: byte, p: Pair) {
    UvacValue(k) == s && UvacAt(s) == p
  }

  lemma UvacWords0()
    ensures UvacIs(0, 0x00, (0, 2)) && UvacIs(1, 0x01, (1, 2)) && UvacIs(2, 0x02, (4, 3)) && UvacIs(3, 0x03, (10, 4))
         && UvacIs(4, 0x11, (11, 4))
  {
  }

  lemma UvacWords1()
    ensures UvacIs(5, 0x04, (24, 5)) && UvacIs(6, 0x05, (25, 5)) && UvacIs(7, 0x21, (26, 5)) && UvacIs(8, 0x31, (27, 5))
         && UvacIs(9, 0x06, (56, 6))
  {
  }

  lemma UvacWords2()
    ensures UvacIs(10, 0x12, (57, 6)) && UvacIs(11, 0x41, (58, 6)) && UvacIs(12, 0x51, (59, 6))
         && UvacIs(13, 0x07, (120, 7)) && UvacIs(14, 0x61, (121, 7))
  {
  }

  lemma UvacWords3()
    ensures UvacIs(15, 0x71, (122, 7)) && UvacIs(16, 0x13, (246, 8)) && UvacIs(17, 0x22, (247, 8))
         && UvacIs(18, 0x32, (248, 8)) && UvacIs(19, 0x81, (249, 8))
  {
  }

  lemma UvacWords4()
    ensures UvacIs(20, 0x08, (500, 9)) && UvacIs(21, 0x14, (501, 9)) && UvacIs(22, 0x42, (502, 9))
         && UvacIs(23, 0x91, (503, 9)) && UvacIs(24, 0xa1, (504, 9))
  {
  }

  lemma UvacWords5()
    ensures UvacIs(25, 0xb1, (505, 9)) && UvacIs(26, 0xc1, (506, 9)) && UvacIs(27, 0x09, (1014, 10))
         && UvacIs(28, 0x23, (1015, 10)) && UvacIs(29, 0x33, (1016, 10))
  {
  }

  lemma UvacWords6()
    ensures UvacIs(30, 0x52, (1017, 10)) && UvacIs(31, 0xf0, (1018, 10)) && UvacIs(32, 0x15, (2038, 11))
         && UvacIs(33, 0x62, (2039, 11)) && UvacIs(34, 0x72, (2040, 11))
  {
  }

  lemma UvacWords7()
    ensures UvacIs(35, 0xd1, (2041, 11)) && UvacIs(36, 0x0a, (4084, 12)) && UvacIs(37, 0x16, (4085, 12))
         && UvacIs(38, 0x24, (4086, 12)) && UvacIs(39, 0x34, (4087, 12))
  {
  }

  lemma UvacWords8()
    ensures UvacIs(40, 0xe1, (16352, 14)) && UvacIs(41, 0x25, (32706, 15)) && UvacIs(42, 0xf1, (32707, 15))
  {
  }

  lemma UvacTail(k: nat)
    requires 43 <= k < 162
    ensures UvacAt(UvacValue(k)) == (65416 + k - 43, 16) && IsNeeded(UvacValue(k))
  {
  }

  lemma YacShortFirst(k: nat)
    requires k < 19
    ensures YacOk(k)
  {
    hide YacAt, YacValue;
    YacWords0();
    YacWords1();
    YacWords2();
    YacWords3();
    assert k == 0 || k == 1 || k == 2 || k == 3 || k == 4 || k == 5 || k == 6 || k == 7 || k == 8 || k == 9
      || k == 10 || k == 11 || k == 12 || k == 13 || k == 14 || k == 15 || k == 16 || k == 17 || k == 18;
  }

  lemma YacShortLast(k: nat)
    requires 19 <= k < 37
    ensures YacOk(k)
  {
    hide YacAt, YacValue;
    YacWords3();
    YacWords4();
    YacWords5();
    YacWords6();
    YacWords7();
    YacTail(37);
    assert k == 19 || k == 20 || k == 21 || k == 22 || k == 23 || k == 24 || k == 25 || k == 26 || k == 27 || k == 28
      || k == 29 || k == 30 || k == 31 || k == 32 || k == 33 || k == 34 || k == 35 || k == 36;
  }

  lemma YacWordOk(k: nat)
    requires k < 162
    ensures YacOk(k)
  {
    if k < 19 {
      YacShortFirst(k);
    } else if k < 37 {
      YacShortLast(k);
    } else {
      hide YacAt, YacValue;
      YacTail(k);
      if k < 161 {
        YacTail(k + 1);
      }
    }
  }

  lemma UvacShortFirst(k: nat)
    requires k < 15
    ensures UvacOk(k)
  {
    hide UvacAt, UvacValue;
    UvacWords0();
    UvacWords1();
    UvacWords2();
    UvacWords3();
    assert k == 0 || k == 1 || k == 2 || k == 3 || k == 4 || k == 5 || k == 6 || k == 7 || k == 8 || k == 9
      || k == 10 || k == 11 || k == 12 || k == 13 || k == 14;
  }

  lemma UvacShortMiddle(k: nat)
    requires 15 <= k < 30
    ensures UvacOk(k)
  {
    hide UvacAt, UvacValue;
    UvacWords3();
    UvacWords4();
    UvacWords5();
    UvacWords6();
    assert k == 15 || k == 16 || k == 17 || k == 18 || k == 19 || k == 20 || k == 21 || k == 22 || k == 23 || k == 24
      || k == 25 || k == 26 || k == 27 || k == 28 || k == 29;
  }

  lemma UvacShortLast(k: nat)
    requires 30 <= k < 43
    ensures UvacOk(k)
  {
    hide UvacAt, UvacValue;
    UvacWords6();
    UvacWords7();
    UvacWords8();
    UvacTail(43);
    assert k == 30 || k == 31 || k == 32 || k == 33 || k == 34 || k == 35 || k == 36 || k == 37 || k == 38 || k == 39
      || k == 40 || k == 41 || k == 42;
  }

  lemma UvacWordOk(k: nat)
    requires k < 162
    ensures UvacOk(k)
  {
    if k < 15 {
      UvacShortFirst(k);
    } else if k < 30 {
      UvacShortMiddle(k);
    } else if k < 43 {
      UvacShortLast(k);
    } else {
      hide UvacAt, UvacValue;
      UvacTail(k);
      if k < 161 {
        UvacTail(k + 1);
      }
    }
  }

  // ----- when the words of a table are those of a header

  function PairAt(ht: seq<Pair>, s: nat): Pair {
    if s < |ht| then ht[s] else (0, 0)
  }

  /** The table as bits. */
  function CodeOf(ht: seq<Pair>): (c: Code)
    requires |ht| <= 256
    ensures |c| == |ht| && forall s :: 0 <= s < |ht| ==> c[s] == Msb(ht[s].0, ht[s].1)
  {
    seq(|ht|, s requires 0 <= s < |ht| => Msb(ht[s].0, ht[s].1))
  }

  /** Word `k` of the header is the table's for its symbol: it has its length and begins where the word before ends. */
  ghost predicate Listed(ht: seq<Pair>, h: Header, k: nat)
    requires IsCounts(h.count) && |h.values| == Upto(h.count, 16) && k < |h.values|
  {
    var p := PairAt(ht, h.values[k]);
    && 1 <= p.1 <= 16 && Upto(h.count, p.1 - 1) <= k < Upto(h.count, p.1)
    && Follows(k, p, if k + 1 < |h.values| then PairAt(ht, h.values[k + 1]) else (0, 0), |h.values|)
  }

  /** All words are, and the symbols are exactly those of `names`. */
  ghost predicate Lists(ht: seq<Pair>, h: Header, names: set<nat>) {
    && IsCounts(h.count) && |h.values| == Upto(h.count, 16) && 0 < |h.values| == |names| < 256 && |ht| <= 256
    && (forall k :: 0 <= k < |h.values| ==> Listed(ht, h, k) && h.values[k] in names)
    && forall s :: 0 <= s < |ht| && ht[s].1 > 0 ==> s in names
  }

  lemma LeftDouble(c: nat, n: nat)
    requires 1 <= n < 16
    ensures Left(c, n) == 2 * Left(c, n + 1)
  {
  }

  lemma {:induction false} LeftIsShl(c: nat, n: nat)
    requires 1 <= n <= 16
    ensures Left(c, n) == Shl(c, 16 - n)
    decreases 16 - n
  {
    if n < 16 {
      hide Left;
      LeftIsShl(c, n + 1);
      LeftDouble(c, n);
    }
  }

  lemma LeftIs(c: nat, n: nat)
    requires 1 <= n <= 16
    ensures Left(c, n) == Shl(c, 16 - n) && Left(c + 1, n) == Left(c, n) + Pow2(16 - n)
  {
    hide Left, Shl, Pow2;
    LeftIsShl(c, n);
    LeftIsShl(c + 1, n);
    ShlSum(c, 1, 16 - n);
    ShlIsProduct(1, 16 - n);
  }

  lemma ListedAt(ht: seq<Pair>, h: Header, names: set<nat>, k: nat)
    requires Lists(ht, h, names) && k < |h.values|
    ensures IsCounts(h.count) && |h.values| == Upto(h.count, 16) && Listed(ht, h, k)
    ensures var p := PairAt(ht, h.values[k]);
            && 1 <= p.1 <= 16 && Sizes(h.count, 16)[k] == p.1 && |Sizes(h.count, 16)| == |h.values|
            && Start(Sizes(h.count, 16), k + 1) == Start(Sizes(h.count, 16), k) + Pow2(16 - p.1)
  {
    hide Sizes, Start, Upto, Pow2;
    SizesOrdered(h.count);
    SizeAt(h.count, PairAt(ht, h.values[k]).1, k);
    StartNext(Sizes(h.count, 16), k);
  }

  /** By induction, every word begins where the table has it. */
  lemma {:induction false} StartIs(ht: seq<Pair>, h: Header, names: set<nat>, k: nat)
    requires Lists(ht, h, names) && k < |h.values|
    ensures IsCounts(h.count) && |h.values| == Upto(h.count, 16) == |Sizes(h.count, 16)|
    ensures var p := PairAt(ht, h.values[k]);
            && 1 <= p.1 <= 16 && Start(Sizes(h.count, 16), k) == Left(p.0, p.1)
            && Start(Sizes(h.count, 16), k + 1) == Left(p.0 + 1, p.1)
  {
    hide Lists, Sizes, Left, Upto, Pow2, Start, PairAt;
    ListedAt(ht, h, names, k);
    var p := PairAt(ht, h.values[k]);
    LeftIs(p.0, p.1);
    if k > 0 {
      ListedAt(ht, h, names, k - 1);
      StartIs(ht, h, names, k - 1);
    } else {
      ShlZero(16 - p.1);
      FirstStart(Sizes(h.count, 16));
    }
  }

  lemma FirstStart(sizes: seq<nat>)
    ensures Start(sizes, 0) == 0
  {
  }

  lemma WordIs(ht: seq<Pair>, h: Header, names: set<nat>, k: nat)
    requires Lists(ht, h, names) && k < |h.values|
    ensures var p := PairAt(ht, h.values[k]);
            k < |Sizes(h.count, 16)| && Sizes(h.count, 16)[k] == p.1 && WordOf(Sizes(h.count, 16), k) == Msb(p.0, p.1)
  {
    hide Sizes, Left, Upto, Start, Msb, Shl, Shr;
    var p := PairAt(ht, h.values[k]);
    ListedAt(ht, h, names, k);
    StartIs(ht, h, names, k);
    LeftIs(p.0, p.1);
    Placed(0, p.0, 16 - p.1);
  }

  lemma HeaderSendable(ht: seq<Pair>, h: Header, names: set<nat>)
    requires Lists(ht, h, names)
    ensures Sendable(h)
  {
    hide Sizes, Left, Upto, Start;
    var last := |h.values| - 1;
    StartIs(ht, h, names, last);
    assert Listed(ht, h, last);
  }

  /** No symbol has two words. */
  lemma SymbolsDiffer(ht: seq<Pair>, h: Header, names: set<nat>, j: nat, k: nat)
    requires Lists(ht, h, names) && j < k < |h.values|
    ensures h.values[j] != h.values[k]
  {
    hide Sizes, Left, Upto, Start;
    StartIs(ht, h, names, j);
    StartIs(ht, h, names, k);
    StartGrows(Sizes(h.count, 16), j, k);
  }

  ghost function SymbolsOf(values: seq<byte>): set<nat> {
    set k | 0 <= k < |values| :: values[k]
  }

  lemma {:induction false} AsManySymbols(values: seq<byte>)
    requires forall j, k :: 0 <= j < k < |values| ==> values[j] != values[k]
    ensures |SymbolsOf(values)| == |values|
  {
    if values != [] {
      var m := |values| - 1;
      AsManySymbols(values[..m]);
      assert SymbolsOf(values) == SymbolsOf(values[..m]) + {values[m]};
      assert values[m] !in SymbolsOf(values[..m]);
    }
  }

  lemma SameSize<T>(a: set<T>, b: set<T>)
    requires a <= b && |a| == |b|
    ensures a == b
  {
    if x :| x in b - a {
      assert |b - {x}| == |b| - 1;
      SmallerSet(a, b - {x});
    } else {
      assert b - a == {};
    }
  }

  lemma {:induction false} SmallerSet<T>(a: set<T>, b: set<T>)
    requires a <= b
    ensures |a| <= |b|
  {
    if x :| x in a {
      SmallerSet(a - {x}, b - {x});
    }
  }

  /** As many different symbols as names: every name has a word. */
  lemma NamesListed(ht: seq<Pair>, h: Header, names: set<nat>)
    requires Lists(ht, h, names)
    ensures SymbolsOf(h.values) == names
  {
    hide Upto, Listed;
    forall j, k | 0 <= j < k < |h.values| ensures h.values[j] != h.values[k] {
      SymbolsDiffer(ht, h, names, j, k);
    }
    AsManySymbols(h.values);
    SameSize(SymbolsOf(h.values), names);
  }

  /** The reader makes of the header the words that the writer uses, one for each name. */
  lemma TableAgrees(ht: seq<Pair>, h: Header, names: set<nat>)
    requires Lists(ht, h, names)
    ensures Sendable(h) && Agree(CodeOf(ht), HeaderBook(h))
    ensures forall s :: s in names ==> Defines(CodeOf(ht), s)
  {
    hide Sizes, Upto, Start, Msb, WordOf, IsBook;
    HeaderSendable(ht, h, names);
    NamesListed(ht, h, names);
    var c, b := CodeOf(ht), HeaderBook(h);
    forall s | s in names ensures Defines(c, s) && s < 256 && Entry(c[s], s) in b {
      var k :| 0 <= k < |h.values| && h.values[k] == s;
      assert Listed(ht, h, k);
      WordIs(ht, h, names, k);
      assert b[k] == Entry(c[s], s);
    }
  }

  // ----- the four tables

  function Ydc(): (ht: seq<Pair>)
    ensures |ht| == 12 && forall s :: 0 <= s < 12 ==> ht[s] == YdcAt(s)
  {
    seq(12, s requires 0 <= s < 12 => YdcAt(s))
  }

  function Uvdc(): (ht: seq<Pair>)
    ensures |ht| == 12 && forall s :: 0 <= s < 12 ==> ht[s] == UvdcAt(s)
  {
    seq(12, s requires 0 <= s < 12 => UvdcAt(s))
  }

  function Yac(): (ht: seq<Pair>)
    ensures |ht| == 256 && forall s :: 0 <= s < 256 ==> ht[s] == YacAt(s)
  {
    seq(256, s requires 0 <= s < 256 => YacAt(s))
  }

  function Uvac(): (ht: seq<Pair>)
    ensures |ht| == 256 && forall s :: 0 <= s < 256 ==> ht[s] == UvacAt(s)
  {
    seq(256, s requires 0 <= s < 256 => UvacAt(s))
  }

  /** Both lists of sizes of differences are 0 to 11. */
  function SizeValues(): (v: seq<byte>)
    ensures |v| == 12 && forall k :: 0 <= k < 12 ==> v[k] == k
  {
    seq(12, k requires 0 <= k < 12 => k)
  }

  function YacHeader(): (h: Header)
    ensures h.count == YacCount() && |h.values| == 162 && forall k :: 0 <= k < 162 ==> h.values[k] == YacValue(k)
  {
    Header(YacCount(), seq(162, k requires 0 <= k < 162 => YacValue(k)))
  }

  function UvacHeader(): (h: Header)
    ensures h.count == UvacCount() && |h.values| == 162 && forall k :: 0 <= k < 162 ==> h.values[k] == UvacValue(k)
  {
    Header(UvacCount(), seq(162, k requires 0 <= k < 162 => UvacValue(k)))
  }

  lemma YdcCountAt(n: nat)
    requires 1 <= n <= 16
    ensures YdcCount()[n - 1] == YdcUpto(n) - YdcUpto(n - 1) && YdcUpto(0) == 0
  {
  }

  lemma {:induction false} YdcUptoIs(n: nat)
    requires n <= 16
    ensures Upto(YdcCount(), n) == YdcUpto(n)
  {
    hide YdcCount, YdcUpto;
    if n > 0 {
      YdcUptoIs(n - 1);
      YdcCountAt(n);
    } else {
      YdcCountAt(1);
    }
  }

  lemma UvdcCountAt(n: nat)
    requires 1 <= n <= 16
    ensures UvdcCount()[n - 1] == UvdcUpto(n) - UvdcUpto(n - 1) && UvdcUpto(0) == 0
  {
  }

  lemma {:induction false} UvdcUptoIs(n: nat)
    requires n <= 16
    ensures Upto(UvdcCount(), n) == UvdcUpto(n)
  {
    hide UvdcCount, UvdcUpto;
    if n > 0 {
      UvdcUptoIs(n - 1);
      UvdcCountAt(n);
    } else {
      UvdcCountAt(1);
    }
  }

  lemma YacCountAt(n: nat)
    requires 1 <= n <= 16
    ensures YacCount()[n - 1] == YacUpto(n) - YacUpto(n - 1) && YacUpto(0) == 0
  {
  }

  lemma {:induction false} YacUptoIs(n: nat)
    requires n <= 16
    ensures Upto(YacCount(), n) == YacUpto(n)
  {
    hide YacCount, YacUpto;
    if n > 0 {
      YacUptoIs(n - 1);
      YacCountAt(n);
    } else {
      YacCountAt(1);
    }
  }

  lemma UvacCountAt(n: nat)
    requires 1 <= n <= 16
    ensures UvacCount()[n - 1] == UvacUpto(n) - UvacUpto(n - 1) && UvacUpto(0) == 0
  {
  }

  lemma {:induction false} UvacUptoIs(n: nat)
    requires n <= 16
    ensures Upto(UvacCount(), n) == UvacUpto(n)
  {
    hide UvacCount, UvacUpto;
    if n > 0 {
      UvacUptoIs(n - 1);
      UvacCountAt(n);
    } else {
      UvacCountAt(1);
    }
  }

  ghost function Needed(n: nat): set<nat> {
    set s | 0 <= s < n && IsNeeded(s)
  }

  /** How many of the symbols below `n` are needed. */
  function HowMany(n: nat): nat {
    var c := n % 16;
    n / 16 * 10 + (if c == 0 then 0 else if c <= 11 then c - 1 else 10)
    + (if n > 0 then 1 else 0) + if n > 240 then 1 else 0
  }

  lemma NoneBelow()
    ensures HowMany(0) == 0 && HowMany(256) == 162
  {
  }

  lemma HowManyIn(r: nat, c: nat)
    requires r < 16 && c < 16
    ensures HowMany(16 * r + c + 1) == HowMany(16 * r + c) + if IsNeeded(16 * r + c) then 1 else 0
  {
    var n := 16 * r + c;
    assert n / 16 == r && n % 16 == c;
    if c < 15 {
      assert (n + 1) / 16 == r && (n + 1) % 16 == c + 1;
    } else {
      assert (n + 1) / 16 == r + 1 && (n + 1) % 16 == 0;
    }
  }

  lemma {:induction false} NeededCount(n: nat)
    requires n <= 256
    ensures |Needed(n)| == HowMany(n)
  {
    hide HowMany;
    if n > 0 {
      NeededCount(n - 1);
      HowManyIn((n - 1) / 16, (n - 1) % 16);
      if IsNeeded(n - 1) {
        assert Needed(n) == Needed(n - 1) + {n - 1};
      } else {
        assert Needed(n) == Needed(n - 1);
      }
    } else {
      assert Needed(0) == {};
      NoneBelow();
    }
  }

  ghost function SizeNames(n: nat): (names: set<nat>)
    ensures |names| == n && forall s: nat :: s in names <==> s < n
  {
    if n == 0 then {} else SizeNames(n - 1) + {n - 1}
  }

  lemma YdcWordOk(k: nat)
    requires k < 12
    ensures var p := YdcAt(k);
            1 <= p.1 <= 16 && YdcUpto(p.1 - 1) <= k < YdcUpto(p.1) && Follows(k, p, YdcAt(k + 1), 12)
  {
  }

  lemma YdcListed(k: nat)
    requires k < 12
    ensures var h := Header(YdcCount(), SizeValues()); Upto(h.count, 16) == 12 && Listed(Ydc(), h, k)
  {
    hide Upto, YdcAt, YdcCount, Left;
    YdcWordOk(k);
    YdcUptoIs(16);
    YdcUptoIs(YdcAt(k).1);
    YdcUptoIs(YdcAt(k).1 - 1);
  }

  lemma YdcLists()
    ensures Lists(Ydc(), Header(YdcCount(), SizeValues()), SizeNames(12))
  {
    hide Upto, YdcCount, Listed, YdcAt, SizeNames, IsNeeded;
    var h := Header(YdcCount(), SizeValues());
    YdcListed(0);
    forall k | 0 <= k < 12 ensures Listed(Ydc(), h, k) {
      YdcListed(k);
    }
  }

  lemma UvdcWordOk(k: nat)
    requires k < 12
    ensures var p := UvdcAt(k);
            1 <= p.1 <= 16 && UvdcUpto(p.1 - 1) <= k < UvdcUpto(p.1) && Follows(k, p, UvdcAt(k + 1), 12)
  {
  }

  lemma UvdcListed(k: nat)
    requires k < 12
    ensures var h := Header(UvdcCount(), SizeValues()); Upto(h.count, 16) == 12 && Listed(Uvdc(), h, k)
  {
    hide Upto, UvdcAt, UvdcCount, Left;
    UvdcWordOk(k);
    UvdcUptoIs(16);
    UvdcUptoIs(UvdcAt(k).1);
    UvdcUptoIs(UvdcAt(k).1 - 1);
  }

  lemma UvdcLists()
    ensures Lists(Uvdc(), Header(UvdcCount(), SizeValues()), SizeNames(12))
  {
    hide Upto, UvdcCount, Listed, UvdcAt, SizeNames, IsNeeded;
    var h := Header(UvdcCount(), SizeValues());
    UvdcListed(0);
    forall k | 0 <= k < 12 ensures Listed(Uvdc(), h, k) {
      UvdcListed(k);
    }
  }

  lemma YacListed(k: nat)
    requires k < 162
    ensures var h := YacHeader(); Upto(h.count, 16) == 162 && Listed(Yac(), h, k) && IsNeeded(h.values[k])
  {
    hide Upto, YacAt, YacValue, YacUpto, YacCount;
    YacWordOk(k);
    YacUptoIs(16);
    YacUptoIs(YacAt(YacValue(k)).1);
    YacUptoIs(YacAt(YacValue(k)).1 - 1);
    assert YacUpto(16) == 162 by { YacTotal(); }
  }

  lemma YacTotal()
    ensures YacUpto(16) == 162
  {
  }

  lemma YacOutside(s: nat)
    requires s < 256 && YacAt(s).1 > 0
    ensures IsNeeded(s)
  {
  }

  lemma YacLists()
    ensures Lists(Yac(), YacHeader(), Needed(256))
  {
    hide Upto, YacAt, YacValue, Listed, IsNeeded, YacCount;
    var h := YacHeader();
    NeededCount(256);
    NoneBelow();
    YacListed(0);
    forall k | 0 <= k < |h.values| ensures Listed(Yac(), h, k) && h.values[k] in Needed(256) {
      YacListed(k);
    }
    forall s | 0 <= s < 256 && YacAt(s).1 > 0 ensures s in Needed(256) {
      YacOutside(s);
    }
  }

  lemma UvacListed(k: nat)
    requires k < 162
    ensures var h := UvacHeader(); Upto(h.count, 16) == 162 && Listed(Uvac(), h, k) && IsNeeded(h.values[k])
  {
    hide Upto, UvacAt, UvacValue, UvacUpto, UvacCount;
    UvacWordOk(k);
    UvacUptoIs(16);
    UvacUptoIs(UvacAt(UvacValue(k)).1);
    UvacUptoIs(UvacAt(UvacValue(k)).1 - 1);
    assert UvacUpto(16) == 162 by { UvacTotal(); }
  }

  lemma UvacTotal()
    ensures UvacUpto(16) == 162
  {
  }

  lemma UvacOutside(s: nat)
    requires s < 256 && UvacAt(s).1 > 0
    ensures IsNeeded(s)
  {
  }

  lemma UvacLists()
    ensures Lists(Uvac(), UvacHeader(), Needed(256))
  {
    hide Upto, UvacAt, UvacValue, Listed, IsNeeded, UvacCount;
    var h := UvacHeader();
    NeededCount(256);
    NoneBelow();
    UvacListed(0);
    forall k | 0 <= k < |h.values| ensures Listed(Uvac(), h, k) && h.values[k] in Needed(256) {
      UvacListed(k);
    }
    forall s | 0 <= s < 256 && UvacAt(s).1 > 0 ensures s in Needed(256) {
      UvacOutside(s);
    }
  }

  /** The writer's tables for the brightness, with the headers it sends. */
  function Luminance(dequant: seq<nat>): Tables {
    Tables(CodeOf(Ydc()), CodeOf(Yac()), Header(YdcCount(), SizeValues()), YacHeader(), dequant)
  }

  /** The writer's tables for the colours. */
  function Chrominance(dequant: seq<nat>): Tables {
    Tables(CodeOf(Uvdc()), CodeOf(Uvac()), Header(UvdcCount(), SizeValues()), UvacHeader(), dequant)
  }

  /** From tables of both kinds, everything a scan demands of them. */
  lemma BaselineHolds(dc: seq<Pair>, ac: seq<Pair>, dcHeader: Header, acHeader: Header)
    requires Lists(dc, dcHeader, SizeNames(12)) && Lists(ac, acHeader, Needed(256)) && dcHeader.values == SizeValues()
    ensures Sendable(dcHeader) && Sendable(acHeader)
    ensures Baseline(CodeOf(dc), CodeOf(ac), HeaderBook(dcHeader), HeaderBook(acHeader))
  {
    hide Lists, Sizes, Upto, Start, WordOf, Agree, IsBook, SizeNames;
    TableAgrees(dc, dcHeader, SizeNames(12));
    TableAgrees(ac, acHeader, Needed(256));
    assert forall s: nat :: s <= 11 ==> s in SizeNames(12);
    assert forall s: nat :: s < 256 && IsNeeded(s) ==> s in Needed(256);
    SymbolsSmall(dcHeader);
  }

  lemma SymbolsSmall(h: Header)
    requires Sendable(h) && h.values == SizeValues()
    ensures SmallSymbols(HeaderBook(h))
  {
    hide WordOf;
  }

  /** The writer's tables are good tables, whatever the steps: all that is proved of scans holds of them. */
  lemma StandardTables(dequant: seq<nat>)
    requires |dequant| == 64
    ensures GoodTables(Luminance(dequant)) && GoodTables(Chrominance(dequant))
  {
    hide Lists, Baseline, Sendable;
    YdcLists();
    YacLists();
    BaselineHolds(Ydc(), Yac(), Header(YdcCount(), SizeValues()), YacHeader());
    UvdcLists();
    UvacLists();
    BaselineHolds(Uvdc(), Uvac(), Header(UvdcCount(), SizeValues()), UvacHeader());
  }

  /** A scan of one brightness and two colour components through the writer's own tables. */
  method WriteAndReadStandardScan(luma: seq<nat>, chroma: seq<nat>, parts: seq<Part>)
    returns (ok: bool, out: seq<Matrix>)
    requires |luma| == 64 == |chroma| && ScanFits(parts, [0, 0, 0, 0])
    ensures var ts := [Luminance(luma), Chrominance(chroma), Chrominance(chroma), Chrominance(chroma)];
            && Shaped(parts) && (forall b :: 0 <= b < 4 ==> |ts[b].dequant| == 64)
            && ok && out == ScaledParts(ts, parts)
  {
    hide Luminance, Chrominance, ScanFits, ScaledParts, GoodTables;
    StandardTables(luma);
    StandardTables(chroma);
    var ts := [Luminance(luma), Chrominance(chroma), Chrominance(chroma), Chrominance(chroma)];
    TablesSized(ts);
    ok, out := WriteAndReadScan(ts, parts);
  }
}
