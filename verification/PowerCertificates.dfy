/**
 Computed powers of the multiplier 16807 modulo 2^31 - 1. Each lemma follows the hexadecimal digits
 of one exponent and gives every quotient and remainder on the way, so that the verifier only has to
 multiply literals.
 */
module PowerCertificates {
  import opened Modular

  const N: nat := 2147483646  // M - 1 == 2 * 3 * 3 * 7 * 11 * 31 * 151 * 331

  lemma Quotient(x: int, q: int, w: int)
    requires x == M * q + w && 0 <= w < M
    ensures x % M == w
  {
    ModOfSum(w, q);
  }

  lemma Square(n: nat, v: int, w: int, q: int) returns (m: nat)
    requires Pow(A, n) == v && v * v == 2147483647 * q + w && 0 <= w < M
    ensures m == 2 * n && Pow(A, m) == w
  {
    PowAdds(A, n, n);
    Quotient(v * v, q, w);
    m := 2 * n;
  }

  predicate IsSmallPower(d: nat, a: int)
  {
    (d == 0 && a == 1)
    || (d == 1 && a == 16807)
    || (d == 2 && a == 282475249)
    || (d == 3 && a == 1622650073)
    || (d == 4 && a == 984943658)
    || (d == 5 && a == 1144108930)
    || (d == 6 && a == 470211272)
    || (d == 7 && a == 101027544)
    || (d == 8 && a == 1457850878)
    || (d == 9 && a == 1458777923)
    || (d == 10 && a == 2007237709)
    || (d == 11 && a == 823564440)
    || (d == 12 && a == 1115438165)
    || (d == 13 && a == 1784484492)
    || (d == 14 && a == 74243042)
    || (d == 15 && a == 114807987)
  }

  lemma SmallPower(d: nat, a: int)
    requires IsSmallPower(d, a)
    ensures Pow(A, d) == a
  {
    assert Pow(A, 0) == 1;
    assert Pow(A, 1) == 16807;
    assert Pow(A, 2) == 282475249;
    assert Pow(A, 3) == 1622650073;
    assert Pow(A, 4) == 984943658;
    assert Pow(A, 5) == 1144108930;
    assert Pow(A, 6) == 470211272;
    assert Pow(A, 7) == 101027544;
    assert Pow(A, 8) == 1457850878;
    assert Pow(A, 9) == 1458777923;
    assert Pow(A, 10) == 2007237709;
    assert Pow(A, 11) == 823564440;
    assert Pow(A, 12) == 1115438165;
    assert Pow(A, 13) == 1784484492;
    assert Pow(A, 14) == 74243042;
    assert Pow(A, 15) == 114807987;
  }

  /**
   Appends the hexadecimal digit d to the exponent: v is squared four times, giving w1 to w4, and
   the last square is multiplied by a == 16807^d to give w; the q are the quotients by 2^31 - 1.
   */
  lemma HexDigit(n: nat, v: int, w1: int, w2: int, w3: int, w4: int, d: nat, a: int, w: int,
                 q1: int, q2: int, q3: int, q4: int, q: int)
    returns (m: nat)
    requires Pow(A, n) == v && IsSmallPower(d, a)
    requires 0 <= w1 < M && 0 <= w2 < M && 0 <= w3 < M && 0 <= w4 < M && 0 <= w < M
    requires v * v == 2147483647 * q1 + w1 && w1 * w1 == 2147483647 * q2 + w2
    requires w2 * w2 == 2147483647 * q3 + w3 && w3 * w3 == 2147483647 * q4 + w4
    requires w4 * a == 2147483647 * q + w
    ensures m == 16 * n + d && Pow(A, m) == w
  {
    hide Pow;
    m := Square(n, v, w1, q1);
    m := Square(m, w1, w2, q2);
    m := Square(m, w2, w3, q3);
    m := Square(m, w3, w4, q4);
    SmallPower(d, a);
    PowAdds(A, m, d);
    Quotient(w4 * a, q, w);
    m := m + d;
  }

  lemma Certificate() returns (n: nat)
    ensures n == N && Pow(A, n) == 1
  {
    n := 0;
    assert Pow(A, n) == 1;
    hide Pow;
    n := HexDigit(n, 1, 1, 1, 1, 1, 7, 101027544, 101027544,
                  0, 0, 0, 0, 0);
    n := HexDigit(n, 101027544, 74243042, 1404280278, 357571490, 1606946231, 15, 114807987, 2014119113,
                  4752802, 2566738, 918285502, 59538227, 85909972);
    n := HexDigit(n, 2014119113, 1561939997, 343077045, 248263272, 1096989447, 15, 114807987, 994734886,
                  1889036876, 1136053612, 54809199, 28700871, 58646849);
    n := HexDigit(n, 994734886, 1698297624, 926738034, 1756855751, 368649247, 15, 114807987, 1079224412,
                  460770676, 1343067186, 399930115, 1437283182, 19708591);
    n := HexDigit(n, 1079224412, 984924185, 574246853, 457589386, 378748167, 15, 114807987, 596864917,
                  542367497, 451726676, 153556209, 97503907, 20248496);
    n := HexDigit(n, 596864917, 497276817, 419950471, 1550086975, 1204444672, 15, 114807987, 1043219357,
                  165890776, 115150694, 82123278, 1118876799, 64391581);
    n := HexDigit(n, 1043219357, 142372994, 1341262094, 1958250907, 2067187534, 15, 114807987, 1098008483,
                  506782265, 9438986, 837717207, 1785693045, 110515225);
    n := HexDigit(n, 1098008483, 1219381394, 72315446, 1617775574, 1935107576, 14, 74243042, 1,
                  561411785, 692387570, 2435186, 1218727700, 66900753);
  }

  lemma Certificate2() returns (n: nat)
    ensures 2 * n == N && Pow(A, n) != 1
  {
    n := 0;
    assert Pow(A, n) == 1;
    hide Pow;
    n := HexDigit(n, 1, 1, 1, 1, 1, 3, 1622650073, 1622650073,
                  0, 0, 0, 0, 0);
    n := HexDigit(n, 1622650073, 470211272, 1115438165, 1998097157, 1899894091, 15, 114807987, 1108728549,
                  1226083031, 102957077, 579376844, 1859102514, 101571444);
    n := HexDigit(n, 1108728549, 1524325968, 1887638, 501848671, 1795289992, 15, 114807987, 754609818,
                  572427639, 1081996438, 1659, 117277767, 95979138);
    n := HexDigit(n, 754609818, 878627494, 2009050749, 2071703685, 1587893215, 15, 114807987, 1181132756,
                  265164290, 359484121, 1879541628, 1998597830, 84891367);
    n := HexDigit(n, 1181132756, 1101980020, 1240574072, 998581414, 963142635, 15, 114807987, 103492285,
                  649632228, 565480424, 716663910, 464341063, 51491180);
    n := HexDigit(n, 103492285, 1055697433, 1242312909, 1264295359, 492532464, 15, 114807987, 1799481238,
                  4987536, 518978140, 718674326, 744332911, 26331590);
    n := HexDigit(n, 1799481238, 697064706, 225900933, 2100992093, 827792946, 15, 114807987, 797756594,
                  1507873054, 226264449, 23763268, 2055507049, 44255164);
    n := HexDigit(n, 797756594, 1946561783, 1688537117, 1824949437, 1839179627, 15, 114807987, 2147483646,
                  296354099, 1764438476, 1327673716, 1550857186, 98325549);
  }

  lemma Certificate3() returns (n: nat)
    ensures 3 * n == N && Pow(A, n) != 1
  {
    n := 0;
    assert Pow(A, n) == 1;
    hide Pow;
    n := HexDigit(n, 1, 1, 1, 1, 1, 2, 282475249, 282475249,
                  0, 0, 0, 0, 0);
    n := HexDigit(n, 282475249, 984943658, 1457850878, 1137522503, 1636807826, 10, 2007237709, 2110010672,
                  37156169, 451744538, 989683523, 602545889, 1529912646);
    n := HexDigit(n, 2110010672, 1478446501, 304987844, 832861200, 476003622, 10, 2007237709, 1987502657,
                  2073191589, 1017844331, 43314688, 323009574, 444917203);
    n := HexDigit(n, 1987502657, 898003988, 401868524, 512453959, 84507850, 10, 2007237709, 99284761,
                  1839439763, 375514460, 75203511, 122286873, 78988887);
    n := HexDigit(n, 99284761, 578505488, 11294627, 1627986388, 1158865755, 10, 2007237709, 1175969859,
                  4590239, 155842211, 59403, 1234160587, 1083183588);
    n := HexDigit(n, 1175969859, 1524724550, 1299877462, 1677815163, 1877619757, 10, 2007237709, 313625057,
                  643965373, 1082562354, 786819223, 1310866196, 1754997848);
    n := HexDigit(n, 313625057, 438271176, 446115504, 1638520455, 176702896, 10, 2007237709, 1252779437,
                  45802759, 89444976, 92675463, 1250183807, 165162941);
    n := HexDigit(n, 1252779437, 1388093266, 554809434, 1027646758, 920240050, 10, 2007237709, 634005911,
                  730835049, 897237526, 143336834, 491765262, 860141837);
  }

  lemma Certificate7() returns (n: nat)
    ensures 7 * n == N && Pow(A, n) != 1
  {
    n := 0;
    assert Pow(A, n) == 1;
    hide Pow;
    n := HexDigit(n, 1, 1, 1, 1, 1, 1, 16807, 16807,
                  0, 0, 0, 0, 0);
    n := HexDigit(n, 16807, 282475249, 984943658, 1457850878, 1137522503, 2, 282475249, 16531729,
                  0, 37156169, 451744538, 989683523, 149627194);
    n := HexDigit(n, 16531729, 704877633, 824938981, 318153057, 855007065, 4, 984943658, 338725129,
                  127264, 231364964, 316893832, 47134872, 392149103);
    n := HexDigit(n, 338725129, 401203083, 749808928, 2110720068, 1105460498, 9, 1458777923, 184149733,
                  53427514, 74954663, 261801028, 2074585858, 750935343);
    n := HexDigit(n, 184149733, 1588280530, 1292075693, 320365114, 795457266, 2, 282475249, 713072451,
                  15791097, 1174693481, 777402705, 47792590, 104632689);
    n := HexDigit(n, 713072451, 808531276, 72714612, 821751376, 1691809704, 4, 984943658, 1994951511,
                  236775875, 304413412, 2462144, 314449576, 775948743);
    n := HexDigit(n, 1994951511, 2080243443, 1683044520, 1970866768, 1272582736, 9, 1458777923, 1491475262,
                  1853253474, 2015108607, 1319050256, 1808775504, 864460878);
    n := HexDigit(n, 1491475262, 1410082339, 1210473470, 2032255744, 1294654868, 2, 282475249, 1600955193,
                  1035862815, 925889333, 682308348, 1923210644, 170296037);
  }

  lemma Certificate11() returns (n: nat)
    ensures 11 * n == N && Pow(A, n) != 1
  {
    n := 0;
    assert Pow(A, n) == 1;
    hide Pow;
    n := HexDigit(n, 1, 1, 1, 1, 1, 0, 1, 1,
                  0, 0, 0, 0, 0);
    n := HexDigit(n, 1, 1, 1, 1, 1, 11, 823564440, 823564440,
                  0, 0, 0, 0, 0);
    n := HexDigit(n, 823564440, 1474833169, 1617819336, 1557810404, 784559590, 10, 2007237709, 462242385,
                  315838673, 1012875175, 1218793636, 1130054358, 733322275);
    n := HexDigit(n, 462242385, 978719103, 1763464891, 1385869610, 1047660757, 2, 282475249, 1503614727,
                  99496926, 446052794, 1448117393, 894365169, 137806978);
    n := HexDigit(n, 1503614727, 1426595217, 1593242601, 245677251, 984865240, 14, 74243042, 2001314837,
                  1052793696, 947701704, 1182044850, 28106063, 34048869);
    n := HexDigit(n, 2001314837, 1917845806, 450369632, 703814329, 723275386, 8, 1457850878, 289296328,
                  1865095029, 1712763932, 94451385, 230667465, 491006140);
    n := HexDigit(n, 289296328, 1343207366, 2134136009, 2049340277, 1935649565, 11, 823564440, 1008979637,
                  38972294, 840148901, 2120871332, 1955682212, 742325629);
    n := HexDigit(n, 1008979637, 547841991, 1476938629, 2065865593, 1728334681, 10, 2007237709, 298192073,
                  474061774, 139759316, 1015769184, 1987349544, 1615462148);
  }

  lemma Certificate31() returns (n: nat)
    ensures 31 * n == N && Pow(A, n) != 1
  {
    n := 0;
    assert Pow(A, n) == 1;
    hide Pow;
    n := HexDigit(n, 1, 1, 1, 1, 1, 0, 1, 1,
                  0, 0, 0, 0, 0);
    n := HexDigit(n, 1, 1, 1, 1, 1, 4, 984943658, 984943658,
                  0, 0, 0, 0, 0);
    n := HexDigit(n, 984943658, 1457850878, 1137522503, 1636807826, 685118024, 2, 282475249, 1060806853,
                  451744538, 989683523, 602545889, 1247571716, 90118909);
    n := HexDigit(n, 1060806853, 1400285365, 175530180, 706642601, 1680351381, 1, 16807, 108218770,
                  524013852, 913068235, 14347417, 232525060, 13151);
    n := HexDigit(n, 108218770, 111398400, 2048666863, 480822013, 1593778648, 0, 1, 1593778648,
                  5453500, 5778671, 1954397148, 107656143, 0);
    n := HexDigit(n, 1593778648, 1464474750, 1535817640, 911831480, 2072488627, 8, 1457850878, 2107038118,
                  1182840382, 998697380, 1098371960, 387167859, 1406939404);
    n := HexDigit(n, 2107038118, 1590438532, 2141501481, 642557948, 122712502, 4, 984943658, 495975381,
                  2067354336, 1177887769, 2135535979, 192262566, 56282105);
    n := HexDigit(n, 495975381, 411385676, 424739074, 205970348, 2143103993, 2, 282475249, 16384,
                  114548755, 78807666, 84006824, 19755113, 281899159);
  }

  lemma Certificate151() returns (n: nat)
    ensures 151 * n == N && Pow(A, n) != 1
  {
    n := 0;
    assert Pow(A, n) == 1;
    hide Pow;
    n := HexDigit(n, 1, 1, 1, 1, 1, 0, 1, 1,
                  0, 0, 0, 0, 0);
    n := HexDigit(n, 1, 1, 1, 1, 1, 0, 1, 1,
                  0, 0, 0, 0, 0);
    n := HexDigit(n, 1, 1, 1, 1, 1, 13, 1784484492, 1784484492,
                  0, 0, 0, 0, 0);
    n := HexDigit(n, 1784484492, 1131570933, 1025921153, 382955828, 1104740033, 9, 1458777923, 1719533808,
                  1482844773, 596257288, 490115123, 68291633, 750445933);
    n := HexDigit(n, 1719533808, 2119315080, 876554400, 444978220, 454021550, 0, 1, 454021550,
                  1376865672, 2091516000, 357789740, 92203550, 0);
    n := HexDigit(n, 454021550, 2010792109, 2100574543, 1969511326, 199457713, 1, 16807, 63809424,
                  95989353, 1882801254, 2054690109, 1806288429, 1561);
    n := HexDigit(n, 63809424, 711597894, 1876427685, 506944312, 2041767666, 11, 823564440, 1422968813,
                  1896006, 235797633, 1639584479, 119671474, 783022141);
    n := HexDigit(n, 1422968813, 1031122011, 2059074765, 758497081, 1449655222, 2, 282475249, 1013763951,
                  942889714, 495096948, 1974305552, 267903237, 190684441);
  }

  lemma Certificate331() returns (n: nat)
    ensures 331 * n == N && Pow(A, n) != 1
  {
    n := 0;
    assert Pow(A, n) == 1;
    hide Pow;
    n := HexDigit(n, 1, 1, 1, 1, 1, 0, 1, 1,
                  0, 0, 0, 0, 0);
    n := HexDigit(n, 1, 1, 1, 1, 1, 0, 1, 1,
                  0, 0, 0, 0, 0);
    n := HexDigit(n, 1, 1, 1, 1, 1, 6, 470211272, 470211272,
                  0, 0, 0, 0, 0);
    n := HexDigit(n, 470211272, 1115438165, 1998097157, 1899894091, 1816731566, 2, 282475249, 1807130337,
                  102957077, 579376844, 1859102514, 1680849845, 238968851);
    n := HexDigit(n, 1807130337, 992663534, 1603481258, 320514918, 1783848212, 15, 114807987, 182048270,
                  1520719405, 458853734, 1197286018, 47837296, 95367442);
    n := HexDigit(n, 182048270, 799204591, 1592854157, 672182563, 461101996, 15, 114807987, 1349594950,
                  15432747, 297430892, 1181468538, 210399459, 24651266);
    n := HexDigit(n, 1349594950, 924100177, 1315497955, 1048814560, 1051660835, 3, 1622650073, 150479927,
                  848158509, 397656642, 805843095, 512232995, 794640524);
    n := HexDigit(n, 150479927, 542140772, 302749254, 482696820, 1742270007, 10, 2007237709, 759513457,
                  10544531, 136865590, 42681168, 108497319, 1628487398);
  }

  /** The multiplier of 15001 steps. */
  lemma CertificateCity() returns (n: nat)
    ensures n == 15001 && Pow(A, n) == 2007685235
  {
    n := 0;
    assert Pow(A, n) == 1;
    hide Pow;
    n := HexDigit(n, 1, 1, 1, 1, 1, 3, 1622650073, 1622650073,
                  0, 0, 0, 0, 0);
    n := HexDigit(n, 1622650073, 470211272, 1115438165, 1998097157, 1899894091, 10, 2007237709, 1927702196,
                  1226083031, 102957077, 579376844, 1859102514, 1775817509);
    n := HexDigit(n, 1927702196, 1808266298, 1911300560, 1633413200, 1706993431, 9, 1458777923, 998595019,
                  1730413994, 1522631852, 1701093200, 1242402327, 1159554502);
    n := HexDigit(n, 998595019, 437928109, 1556980881, 1967980819, 1861098419, 9, 1458777923, 2007685235,
                  464353716, 89305000, 1128851186, 1803482186, 1264237466);
  }
}
