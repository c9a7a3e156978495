/** The field the drivers ask for: eight-bit symbols with polynomial 0x11d. */
module DriverField {
  import opened BitXor
  import opened GaloisField
  import opened FieldLaws

  /** ecc_symsize 8, ecc_poly 0x11d. */
  const BYTE_FIELD := GF(8, 0x11d)

  /** One register turn on a byte, in plain arithmetic: exclusive-or with 0x1d flips bits 0, 2, 3 and 4. */
  function ByteStep(a: nat): int {
    if a < 128 then 2 * a
    else 2 * a - 256 + 29 - 8 * ((2 * a - 256) / 4 % 8)
  }

  lemma FlipOne(w: nat)
    ensures Xor(w, 1) == w + 1 - 2 * (w % 2)
  {
    hide Xor;
    XorBit(w, 1);
    XorZero(w / 2);
  }

  lemma FlipThree(w: nat)
    ensures Xor(w, 3) == w + 3 - 2 * (w % 4)
  {
    hide Xor;
    XorBit(w, 3);
    FlipOne(w / 2);
    FourPart(w, Xor(w, 3));
  }

  lemma FourPart(w: nat, x: nat)
    requires x % 2 == (w + 3) % 2 && x / 2 == w / 2 + 1 - 2 * (w / 2 % 2)
    ensures x == w + 3 - 2 * (w % 4)
  {
    var h, b := w / 2, w % 2;
    var q, c := h / 2, h % 2;
    assert w == 4 * q + 2 * c + b && w % 4 == 2 * c + b;
  }

  lemma FlipSeven(w: nat)
    ensures Xor(w, 7) == w + 7 - 2 * (w % 8)
  {
    hide Xor;
    XorBit(w, 7);
    FlipThree(w / 2);
    EightPart(w, Xor(w, 7));
  }

  lemma EightPart(w: nat, x: nat)
    requires x % 2 == (w + 7) % 2 && x / 2 == w / 2 + 3 - 2 * (w / 2 % 4)
    ensures x == w + 7 - 2 * (w % 8)
  {
    var h, b := w / 2, w % 2;
    var q, c := h / 4, h % 4;
    assert w == 8 * q + 2 * c + b && w % 8 == 2 * c + b;
  }

  lemma FlipBits(c: nat)
    requires c % 2 == 0
    ensures Xor(c, 29) == c + 29 - 8 * (c / 4 % 8)
  {
    hide Xor;
    XorBit(c, 29);
    XorBit(c / 2, 14);
    FlipSeven(c / 4);
    assert c / 2 / 2 == c / 4;
  }

  lemma ByteStepIs(a: nat)
    requires a < 256
    ensures Step(BYTE_FIELD, a) == ByteStep(a)
  {
    hide Xor, Low, Shr, Pow2;
    ByteSize();
    if a < 128 {
      StepSmall(BYTE_FIELD, a);
    } else {
      TopBit(a);
      HighByte(a, 8);
    }
  }

  lemma HighByte(a: nat, k: nat)
    requires 128 <= a < 256 && k == 8
    ensures Low(Xor(2 * a, 0x11d), k) == ByteStep(a)
  {
    hide Xor, Low, Pow2;
    ByteSize();
    var c := 2 * a - 256;
    XorLow(2 * a, 0x11d, k);
    LowDrop(c, k);
    LowDrop(29, k);
    FlipBits(c);
  }

  /** Bit 8 of a doubled byte. */
  lemma TopBit(a: nat)
    requires 128 <= a < 256
    ensures Shr(2 * a, 8) % 2 == 1
  {
    var t := 2 * a;
    assert Shr(t, 8) == Shr(t / 16, 4) by {
      assert Shr(t, 8) == Shr(t / 2 / 2, 6) == Shr(t / 4 / 2 / 2, 4);
    }
    assert Shr(t / 16, 4) == Shr(t / 16 / 2 / 2, 2) == t / 256;
  }

  lemma {:induction false} LowDrop(b: nat, k: nat)
    requires b < Pow2(k)
    ensures Low(b + Pow2(k), k) == b
  {
    if k > 0 {
      LowDrop(b / 2, k - 1);
      assert (b + Pow2(k)) / 2 == b / 2 + Pow2(k - 1);
    }
  }

  lemma Next(n: nat, a: nat, b: nat)
    requires Exp(BYTE_FIELD, n) == a < 256 && ByteStep(a) == b
    ensures Exp(BYTE_FIELD, n + 1) == b
  {
    hide Step, StepN;
    ByteStepIs(a);
    ExpNext(BYTE_FIELD, n);
  }

  lemma Turns0()
    requires Exp(BYTE_FIELD, 0) == 1
    ensures Exp(BYTE_FIELD, 17) == 152
    ensures forall i :: 0 < i <= 17 ==> Exp(BYTE_FIELD, i) != 1
  {
    hide Exp;
    Next(0, 1, 2); Next(1, 2, 4); Next(2, 4, 8); Next(3, 8, 16);
    Next(4, 16, 32); Next(5, 32, 64); Next(6, 64, 128); Next(7, 128, 29);
    Next(8, 29, 58); Next(9, 58, 116); Next(10, 116, 232); Next(11, 232, 205);
    Next(12, 205, 135); Next(13, 135, 19); Next(14, 19, 38); Next(15, 38, 76);
    Next(16, 76, 152);
  }

  lemma Turns1()
    requires Exp(BYTE_FIELD, 17) == 152
    ensures Exp(BYTE_FIELD, 34) == 78
    ensures forall i :: 17 < i <= 34 ==> Exp(BYTE_FIELD, i) != 1
  {
    hide Exp;
    Next(17, 152, 45); Next(18, 45, 90); Next(19, 90, 180); Next(20, 180, 117);
    Next(21, 117, 234); Next(22, 234, 201); Next(23, 201, 143); Next(24, 143, 3);
    Next(25, 3, 6); Next(26, 6, 12); Next(27, 12, 24); Next(28, 24, 48);
    Next(29, 48, 96); Next(30, 96, 192); Next(31, 192, 157); Next(32, 157, 39);
    Next(33, 39, 78);
  }

  lemma Turns2()
    requires Exp(BYTE_FIELD, 34) == 78
    ensures Exp(BYTE_FIELD, 51) == 10
    ensures forall i :: 34 < i <= 51 ==> Exp(BYTE_FIELD, i) != 1
  {
    hide Exp;
    Next(34, 78, 156); Next(35, 156, 37); Next(36, 37, 74); Next(37, 74, 148);
    Next(38, 148, 53); Next(39, 53, 106); Next(40, 106, 212); Next(41, 212, 181);
    Next(42, 181, 119); Next(43, 119, 238); Next(44, 238, 193); Next(45, 193, 159);
    Next(46, 159, 35); Next(47, 35, 70); Next(48, 70, 140); Next(49, 140, 5);
    Next(50, 5, 10);
  }

  lemma Turns3()
    requires Exp(BYTE_FIELD, 51) == 10
    ensures Exp(BYTE_FIELD, 68) == 153
    ensures forall i :: 51 < i <= 68 ==> Exp(BYTE_FIELD, i) != 1
  {
    hide Exp;
    Next(51, 10, 20); Next(52, 20, 40); Next(53, 40, 80); Next(54, 80, 160);
    Next(55, 160, 93); Next(56, 93, 186); Next(57, 186, 105); Next(58, 105, 210);
    Next(59, 210, 185); Next(60, 185, 111); Next(61, 111, 222); Next(62, 222, 161);
    Next(63, 161, 95); Next(64, 95, 190); Next(65, 190, 97); Next(66, 97, 194);
    Next(67, 194, 153);
  }

  lemma Turns4()
    requires Exp(BYTE_FIELD, 68) == 153
    ensures Exp(BYTE_FIELD, 85) == 214
    ensures forall i :: 68 < i <= 85 ==> Exp(BYTE_FIELD, i) != 1
  {
    hide Exp;
    Next(68, 153, 47); Next(69, 47, 94); Next(70, 94, 188); Next(71, 188, 101);
    Next(72, 101, 202); Next(73, 202, 137); Next(74, 137, 15); Next(75, 15, 30);
    Next(76, 30, 60); Next(77, 60, 120); Next(78, 120, 240); Next(79, 240, 253);
    Next(80, 253, 231); Next(81, 231, 211); Next(82, 211, 187); Next(83, 187, 107);
    Next(84, 107, 214);
  }

  lemma Turns5()
    requires Exp(BYTE_FIELD, 85) == 214
    ensures Exp(BYTE_FIELD, 102) == 68
    ensures forall i :: 85 < i <= 102 ==> Exp(BYTE_FIELD, i) != 1
  {
    hide Exp;
    Next(85, 214, 177); Next(86, 177, 127); Next(87, 127, 254); Next(88, 254, 225);
    Next(89, 225, 223); Next(90, 223, 163); Next(91, 163, 91); Next(92, 91, 182);
    Next(93, 182, 113); Next(94, 113, 226); Next(95, 226, 217); Next(96, 217, 175);
    Next(97, 175, 67); Next(98, 67, 134); Next(99, 134, 17); Next(100, 17, 34);
    Next(101, 34, 68);
  }

  lemma Turns6()
    requires Exp(BYTE_FIELD, 102) == 68
    ensures Exp(BYTE_FIELD, 119) == 147
    ensures forall i :: 102 < i <= 119 ==> Exp(BYTE_FIELD, i) != 1
  {
    hide Exp;
    Next(102, 68, 136); Next(103, 136, 13); Next(104, 13, 26); Next(105, 26, 52);
    Next(106, 52, 104); Next(107, 104, 208); Next(108, 208, 189); Next(109, 189, 103);
    Next(110, 103, 206); Next(111, 206, 129); Next(112, 129, 31); Next(113, 31, 62);
    Next(114, 62, 124); Next(115, 124, 248); Next(116, 248, 237); Next(117, 237, 199);
    Next(118, 199, 147);
  }

  lemma Turns7()
    requires Exp(BYTE_FIELD, 119) == 147
    ensures Exp(BYTE_FIELD, 136) == 79
    ensures forall i :: 119 < i <= 136 ==> Exp(BYTE_FIELD, i) != 1
  {
    hide Exp;
    Next(119, 147, 59); Next(120, 59, 118); Next(121, 118, 236); Next(122, 236, 197);
    Next(123, 197, 151); Next(124, 151, 51); Next(125, 51, 102); Next(126, 102, 204);
    Next(127, 204, 133); Next(128, 133, 23); Next(129, 23, 46); Next(130, 46, 92);
    Next(131, 92, 184); Next(132, 184, 109); Next(133, 109, 218); Next(134, 218, 169);
    Next(135, 169, 79);
  }

  lemma Turns8()
    requires Exp(BYTE_FIELD, 136) == 79
    ensures Exp(BYTE_FIELD, 153) == 146
    ensures forall i :: 136 < i <= 153 ==> Exp(BYTE_FIELD, i) != 1
  {
    hide Exp;
    Next(136, 79, 158); Next(137, 158, 33); Next(138, 33, 66); Next(139, 66, 132);
    Next(140, 132, 21); Next(141, 21, 42); Next(142, 42, 84); Next(143, 84, 168);
    Next(144, 168, 77); Next(145, 77, 154); Next(146, 154, 41); Next(147, 41, 82);
    Next(148, 82, 164); Next(149, 164, 85); Next(150, 85, 170); Next(151, 170, 73);
    Next(152, 73, 146);
  }

  lemma Turns9()
    requires Exp(BYTE_FIELD, 153) == 146
    ensures Exp(BYTE_FIELD, 170) == 215
    ensures forall i :: 153 < i <= 170 ==> Exp(BYTE_FIELD, i) != 1
  {
    hide Exp;
    Next(153, 146, 57); Next(154, 57, 114); Next(155, 114, 228); Next(156, 228, 213);
    Next(157, 213, 183); Next(158, 183, 115); Next(159, 115, 230); Next(160, 230, 209);
    Next(161, 209, 191); Next(162, 191, 99); Next(163, 99, 198); Next(164, 198, 145);
    Next(165, 145, 63); Next(166, 63, 126); Next(167, 126, 252); Next(168, 252, 229);
    Next(169, 229, 215);
  }

  lemma Turns10()
    requires Exp(BYTE_FIELD, 170) == 215
    ensures Exp(BYTE_FIELD, 187) == 220
    ensures forall i :: 170 < i <= 187 ==> Exp(BYTE_FIELD, i) != 1
  {
    hide Exp;
    Next(170, 215, 179); Next(171, 179, 123); Next(172, 123, 246); Next(173, 246, 241);
    Next(174, 241, 255); Next(175, 255, 227); Next(176, 227, 219); Next(177, 219, 171);
    Next(178, 171, 75); Next(179, 75, 150); Next(180, 150, 49); Next(181, 49, 98);
    Next(182, 98, 196); Next(183, 196, 149); Next(184, 149, 55); Next(185, 55, 110);
    Next(186, 110, 220);
  }

  lemma Turns11()
    requires Exp(BYTE_FIELD, 187) == 220
    ensures Exp(BYTE_FIELD, 204) == 221
    ensures forall i :: 187 < i <= 204 ==> Exp(BYTE_FIELD, i) != 1
  {
    hide Exp;
    Next(187, 220, 165); Next(188, 165, 87); Next(189, 87, 174); Next(190, 174, 65);
    Next(191, 65, 130); Next(192, 130, 25); Next(193, 25, 50); Next(194, 50, 100);
    Next(195, 100, 200); Next(196, 200, 141); Next(197, 141, 7); Next(198, 7, 14);
    Next(199, 14, 28); Next(200, 28, 56); Next(201, 56, 112); Next(202, 112, 224);
    Next(203, 224, 221);
  }

  lemma Turns12()
    requires Exp(BYTE_FIELD, 204) == 221
    ensures Exp(BYTE_FIELD, 221) == 69
    ensures forall i :: 204 < i <= 221 ==> Exp(BYTE_FIELD, i) != 1
  {
    hide Exp;
    Next(204, 221, 167); Next(205, 167, 83); Next(206, 83, 166); Next(207, 166, 81);
    Next(208, 81, 162); Next(209, 162, 89); Next(210, 89, 178); Next(211, 178, 121);
    Next(212, 121, 242); Next(213, 242, 249); Next(214, 249, 239); Next(215, 239, 195);
    Next(216, 195, 155); Next(217, 155, 43); Next(218, 43, 86); Next(219, 86, 172);
    Next(220, 172, 69);
  }

  lemma Turns13()
    requires Exp(BYTE_FIELD, 221) == 69
    ensures Exp(BYTE_FIELD, 238) == 11
    ensures forall i :: 221 < i <= 238 ==> Exp(BYTE_FIELD, i) != 1
  {
    hide Exp;
    Next(221, 69, 138); Next(222, 138, 9); Next(223, 9, 18); Next(224, 18, 36);
    Next(225, 36, 72); Next(226, 72, 144); Next(227, 144, 61); Next(228, 61, 122);
    Next(229, 122, 244); Next(230, 244, 245); Next(231, 245, 247); Next(232, 247, 243);
    Next(233, 243, 251); Next(234, 251, 235); Next(235, 235, 203); Next(236, 203, 139);
    Next(237, 139, 11);
  }

  lemma Turns14()
    requires Exp(BYTE_FIELD, 238) == 11
    ensures Exp(BYTE_FIELD, 255) == 1
    ensures forall i :: 238 < i <= 254 ==> Exp(BYTE_FIELD, i) != 1
  {
    hide Exp;
    Next(238, 11, 22); Next(239, 22, 44); Next(240, 44, 88); Next(241, 88, 176);
    Next(242, 176, 125); Next(243, 125, 250); Next(244, 250, 233); Next(245, 233, 207);
    Next(246, 207, 131); Next(247, 131, 27); Next(248, 27, 54); Next(249, 54, 108);
    Next(250, 108, 216); Next(251, 216, 173); Next(252, 173, 71); Next(253, 71, 142);
    Next(254, 142, 1);
  }

  /** The test of rs_init lets through polynomials that are not primitive: x^4 + x^3 + x^2 + x + 1 has x^15 = 1, and x^5 = 1 already. */
  lemma AcceptedNotPrimitive(g: GF)
    requires g == GF(4, 0x1f)
    ensures Top(g) == 15 && Exp(g, 15) == 1 && !Primitive(g)
  {
    NibbleTurn(g);
    hide Step, StepN;
    assert Exp(g, 5) == 1;
    StepNAdd(g, 1, 5, 5);
    StepNAdd(g, 1, 10, 5);
  }

  lemma NibbleTurn(g: GF)
    requires g == GF(4, 0x1f)
    ensures Pow2(4) == 16 && StepN(g, 1, 5) == 1
  {
    assert Pow2(4) == 16;
    assert Step(g, 8) == 15 && Step(g, 15) == 1;
    StepSmall(g, 1);
    StepSmall(g, 2);
    StepSmall(g, 4);
    hide Step;
    assert StepN(g, 1, 0) == 1;
    assert StepN(g, 1, 1) == Step(g, StepN(g, 1, 0)) == 2;
    assert StepN(g, 1, 2) == Step(g, StepN(g, 1, 1)) == 4;
    assert StepN(g, 1, 3) == Step(g, StepN(g, 1, 2)) == 8;
    assert StepN(g, 1, 4) == Step(g, StepN(g, 1, 3)) == 15;
    assert StepN(g, 1, 5) == Step(g, StepN(g, 1, 4));
  }

  /** x generates the whole multiplicative group of the drivers' field. */
  lemma ByteFieldPrimitive()
    ensures Primitive(BYTE_FIELD) && Top(BYTE_FIELD) == 255
  {
    ByteSize();
    ExpZero(BYTE_FIELD);
    hide Exp;
    Turns0();
    Turns1();
    Turns2();
    Turns3();
    Turns4();
    Turns5();
    Turns6();
    Turns7();
    Turns8();
    Turns9();
    Turns10();
    Turns11();
    Turns12();
    Turns13();
    Turns14();
  }
}
