/** The moduli of the library, with a root of unity and an inverse of the largest degree
    for each, and the facts about these constants on which the transforms rely. */
module NflParams {
  import opened Arith
  import opened Words

  const MAX_NB_MODULI: nat := 17
  const MODULUS_BITSIZE: nat := 60
  const MAX_LOG_DEGREE: nat := 13

  /** A modulus, a primitive 2^14-th root of unity for it, and the inverse of 8192. */
  datatype ModulusParams = ModulusParams(p: uint64, root: uint64, invMaxDegree: uint64)

  function Params(i: nat): ModulusParams
    requires i < MAX_NB_MODULI
  {
    if i == 0 then ModulusParams(2305843009213317121, 1187132827279672845, 2305561534236606511)
    else if i == 1 then ModulusParams(2305843009213120513, 753478288701480417, 2305561534236409927)
    else if i == 2 then ModulusParams(2305843009212694529, 717492273700781398, 2305561534235983995)
    else if i == 3 then ModulusParams(2305843009212399617, 1965831349000139179, 2305561534235689119)
    else if i == 4 then ModulusParams(2305843009211662337, 2188074825493578002, 2305561534234951929)
    else if i == 5 then ModulusParams(2305843009211596801, 232964966911499637, 2305561534234886401)
    else if i == 6 then ModulusParams(2305843009211400193, 395215708149128273, 2305561534234689817)
    else if i == 7 then ModulusParams(2305843009210580993, 241993652537061162, 2305561534233870717)
    else if i == 8 then ModulusParams(2305843009210515457, 370764889455808762, 2305561534233805189)
    else if i == 9 then ModulusParams(2305843009210023937, 1598724739621481826, 2305561534233313729)
    else if i == 10 then ModulusParams(2305843009209057281, 610870591815427803, 2305561534232347191)
    else if i == 11 then ModulusParams(2305843009208795137, 1880981984715338041, 2305561534232085079)
    else if i == 12 then ModulusParams(2305843009208713217, 1389374064030612248, 2305561534232003169)
    else if i == 13 then ModulusParams(2305843009208123393, 1508488901479281364, 2305561534231413417)
    else if i == 14 then ModulusParams(2305843009207468033, 2111887543055470169, 2305561534230758137)
    else if i == 15 then ModulusParams(2305843009206976513, 2020509703903079203, 2305561534230266677)
    else ModulusParams(2305843009206845441, 1120240637471598814, 2305561534230135621)
  }

  /** 8192 / N for degree N = 2^L. */
  function RootExponent(L: nat): nat {
    QuotientNat(8192, Exp2(L));
    8192 / Exp2(L)
  }

  lemma QuotientNat(x: nat, m: nat)
    requires m > 0
    ensures x / m >= 0
  {
    DivModEq(x, m);
    if x / m < 0 { MulMono(x / m, -1, m); }
  }

  /** phi is the 2N-th root of unity that the library uses for degree N = 2^L: the recorded root to
      the power 8192 / N. */
  ghost predicate IsRootOfDegree(phi: int, m: ModulusParams, L: nat) {
    m.p > 0 && phi == Pow(m.root, RootExponent(L)) % m.p
  }

  /** b is the square of a modulo p. */
  predicate SquareMod(a: int, b: int, p: int)
    requires p > 0
  {
    (a * a) % p == b
  }

  lemma SquarePower(r: int, e: nat, a: int, b: int, p: int)
    requires p > 0 && Cong(Pow(r, e), a, p) && SquareMod(a, b, p)
    ensures Cong(Pow(r, 2 * e), b, p)
  {
    PowAdd(r, e, e);
    CongMul(Pow(r, e), a, Pow(r, e), a, p);
    CongMod(a * a, p);
  }

  /** The thirteen squarings that lead from r to its 8192-th power, which is -1 modulo p. */
  lemma RootCertificate(p: int, r: int, c1: int, c2: int, c3: int, c4: int, c5: int, c6: int,
                        c7: int, c8: int, c9: int, c10: int, c11: int, c12: int)
    requires p > 1 && SquareMod(r, c1, p) && SquareMod(c1, c2, p) && SquareMod(c2, c3, p) && SquareMod(c3, c4, p)
    requires SquareMod(c4, c5, p) && SquareMod(c5, c6, p) && SquareMod(c6, c7, p) && SquareMod(c7, c8, p)
    requires SquareMod(c8, c9, p) && SquareMod(c9, c10, p) && SquareMod(c10, c11, p) && SquareMod(c11, c12, p)
    requires SquareMod(c12, p - 1, p)
    ensures Cong(Pow(r, 8192), -1, p)
  {
    hide SquareMod, Cong;
    assert Cong(Pow(r, 1), r, p) by { FirstPower(r, p); }
    SquarePower(r, 1, r, c1, p);
    SquarePower(r, 2, c1, c2, p);
    SquarePower(r, 4, c2, c3, p);
    SquarePower(r, 8, c3, c4, p);
    SquarePower(r, 16, c4, c5, p);
    SquarePower(r, 32, c5, c6, p);
    SquarePower(r, 64, c6, c7, p);
    SquarePower(r, 128, c7, c8, p);
    SquarePower(r, 256, c8, c9, p);
    SquarePower(r, 512, c9, c10, p);
    SquarePower(r, 1024, c10, c11, p);
    SquarePower(r, 2048, c11, c12, p);
    SquarePower(r, 4096, c12, p - 1, p);
    assert Cong(Pow(r, 8192), -1, p) by { LastPower(Pow(r, 8192), p); }
  }

  lemma FirstPower(r: int, p: int)
    requires p > 0
    ensures Cong(Pow(r, 1), r, p)
  {
    assert Pow(r, 1) == r * Pow(r, 0) == r;
  }

  lemma LastPower(x: int, p: int)
    requires p > 0 && Cong(x, p - 1, p)
    ensures Cong(x, -1, p)
  {
    CongByMultiple(p - 1, -1, 1, p);
  }

  /** What the library needs of a modulus: it is just below 2^61, its root is a 2^14-th root
      of unity of which the 2^13-th power is -1, and the recorded inverse of 8192 is one. */
  ghost predicate GoodModulus(m: ModulusParams) {
    && W64 / 8 - 0x80_0000 < m.p < W64 / 8 && m.root < m.p
    && Cong(Pow(m.root, 8192), -1, m.p)
    && Cong(m.invMaxDegree * 8192, 1, m.p)
  }

  lemma Good0()
    ensures GoodModulus(ModulusParams(2305843009213317121, 1187132827279672845, 2305561534236606511))
  {
    hide Pow;
    RootCertificate(2305843009213317121, 1187132827279672845, 13243613565263507, 2230032989056081504,
      95586758384746971, 1830888908996365538, 1678244032409229141, 1651520935710742572, 1675168583298630569,
      81382622236675402, 1311697108736543923, 1564586452549992487, 1818850748492106789, 222997086870159325);
  }

  lemma Good1()
    ensures GoodModulus(ModulusParams(2305843009213120513, 753478288701480417, 2305561534236409927))
  {
    hide Pow;
    RootCertificate(2305843009213120513, 753478288701480417, 1447766603719678700, 708552819981737403,
      1362670590231300350, 35958668292136380, 1142712712630638488, 1971528753885589223, 2001503062776351467,
      2007363051500442292, 962080518467078000, 667624233020013667, 1565773532458295569, 360776291805017235);
  }

  lemma Good2()
    ensures GoodModulus(ModulusParams(2305843009212694529, 717492273700781398, 2305561534235983995))
  {
    hide Pow;
    RootCertificate(2305843009212694529, 717492273700781398, 801301777447158231, 1903813673377215004,
      1573951245839286856, 1111127246431498060, 1898565025445628740, 18968911888466584, 1517839936665287516,
      2204405975199180060, 2238112772951108950, 1959222331668456397, 1951051278666416157, 250530412275974778);
  }

  lemma Good3()
    ensures GoodModulus(ModulusParams(2305843009212399617, 1965831349000139179, 2305561534235689119))
  {
    hide Pow;
    RootCertificate(2305843009212399617, 1965831349000139179, 42632205336564135, 2211830988511757763,
      195313197883102079, 1936148537628096735, 2061472564427495011, 570685586098607221, 281635817979269538,
      1697815987893589424, 1240703379702411916, 959409789127044753, 884267895072727196, 418658073271624232);
  }

  lemma Good4()
    ensures GoodModulus(ModulusParams(2305843009211662337, 2188074825493578002, 2305561534234951929))
  {
    hide Pow;
    RootCertificate(2305843009211662337, 2188074825493578002, 5091572349901887, 24008620627458745,
      1664911602017377941, 990951525582740169, 1003712549368246471, 1864078908678416958, 1958553538204635930,
      386847028554193638, 964445411847062950, 866611288648409311, 1317703440728285255, 2187195310547296430);
  }

  lemma Good5()
    ensures GoodModulus(ModulusParams(2305843009211596801, 232964966911499637, 2305561534234886401))
  {
    hide Pow;
    RootCertificate(2305843009211596801, 232964966911499637, 1786446915771063319, 1684945000063707870,
      1289703925728633312, 647704755907703007, 1196384803813809641, 1654734000453277515, 142627227035982079,
      613031427688142867, 385412500174230596, 2167469528306259317, 1232765453431219518, 1099086561747152115);
  }

  lemma Good6()
    ensures GoodModulus(ModulusParams(2305843009211400193, 395215708149128273, 2305561534234689817))
  {
    hide Pow;
    RootCertificate(2305843009211400193, 395215708149128273, 498195643263950813, 1604271320120842749,
      1741247137628862675, 1891889153864612794, 1583729147203781234, 2110490580795293450, 1704761348214250823,
      914037736919111780, 920217333913555337, 460097915837352179, 1388628004177656562, 1495595089855632643);
  }

  lemma Good7()
    ensures GoodModulus(ModulusParams(2305843009210580993, 241993652537061162, 2305561534233870717))
  {
    hide Pow;
    RootCertificate(2305843009210580993, 241993652537061162, 2103458369471985112, 1192737796637375593,
      752543634579580659, 2131287754802518853, 117838107650773016, 2064188864368822008, 1686089723307654069,
      472041387554133396, 1772423075982793955, 562107509508301730, 57326827343266931, 866221783582889990);
  }

  lemma Good8()
    ensures GoodModulus(ModulusParams(2305843009210515457, 370764889455808762, 2305561534233805189))
  {
    hide Pow;
    RootCertificate(2305843009210515457, 370764889455808762, 1983324288946278675, 337732474793269195,
      1425426036882942505, 139541635156451232, 1973972177494477393, 1251271977584421280, 421995096131285467,
      1744754270438951427, 1939217932181625971, 2211399727273313104, 1683673598923264006, 1829323416978807748);
  }

  lemma Good9()
    ensures GoodModulus(ModulusParams(2305843009210023937, 1598724739621481826, 2305561534233313729))
  {
    hide Pow;
    RootCertificate(2305843009210023937, 1598724739621481826, 873132868063259969, 1375164754696803609,
      2267287747468950953, 1932971749573231972, 847256142778814607, 335679925807875440, 872182847031969511,
      1306640736138914776, 402363335076995614, 1197523184541312298, 90655236986960302, 2028567213584149454);
  }

  lemma Good10()
    ensures GoodModulus(ModulusParams(2305843009209057281, 610870591815427803, 2305561534232347191))
  {
    hide Pow;
    RootCertificate(2305843009209057281, 610870591815427803, 585672325042869519, 1249333127971622504,
      1182211493889187450, 375434863904797838, 1903812757752395631, 22319248997413781, 1636104503750824948,
      393330673171713020, 1396776096233058302, 1789499422085323380, 1196127234377285637, 482245150941827001);
  }

  lemma Good11()
    ensures GoodModulus(ModulusParams(2305843009208795137, 1880981984715338041, 2305561534232085079))
  {
    hide Pow;
    RootCertificate(2305843009208795137, 1880981984715338041, 2074074683399928081, 69382813402471206,
      1696396077495830262, 1608000730641194455, 1712143945337424075, 1838034329356940440, 106286901460276994,
      2247276975537119937, 714658941493855083, 1837020054670475166, 85490382560117742, 1006895093001922554);
  }

  lemma Good12()
    ensures GoodModulus(ModulusParams(2305843009208713217, 1389374064030612248, 2305561534232003169))
  {
    hide Pow;
    RootCertificate(2305843009208713217, 1389374064030612248, 287999079025464267, 320920727499942500,
      1044271258405542540, 663827225241703219, 1541940017697248896, 1142843057155250215, 1551503456922598490,
      129438100945024052, 1650745369943840376, 1135878661842109692, 1668158128880139100, 845280517297603494);
  }

  lemma Good13()
    ensures GoodModulus(ModulusParams(2305843009208123393, 1508488901479281364, 2305561534231413417))
  {
    hide Pow;
    RootCertificate(2305843009208123393, 1508488901479281364, 437542756846473339, 1740835794813311843,
      1951259326595360091, 1092161357939475251, 1141896114030086999, 526434144890569882, 1462567849230440850,
      44810151508311047, 1064655223539266452, 352410768762626121, 2219219004477517630, 1813132927855221362);
  }

  lemma Good14()
    ensures GoodModulus(ModulusParams(2305843009207468033, 2111887543055470169, 2305561534230758137))
  {
    hide Pow;
    RootCertificate(2305843009207468033, 2111887543055470169, 605530020008446277, 2187662084548004021,
      411511722900622310, 270611021026767499, 1441967816888631357, 857875804837917311, 884028155792200765,
      253223941079913384, 819493316909631262, 1255606528434957728, 1016192343801106746, 1227308637498204913);
  }

  lemma Good15()
    ensures GoodModulus(ModulusParams(2305843009206976513, 2020509703903079203, 2305561534230266677))
  {
    hide Pow;
    RootCertificate(2305843009206976513, 2020509703903079203, 1152183008415369025, 742260843626298335,
      1743120098823668545, 1602193719756714605, 939879745745634444, 1650943995904373500, 2178585624361135714,
      1689799094962363906, 1523754098938948473, 1143339047915668088, 1269424245395984338, 151842333885513485);
  }

  lemma Good16()
    ensures GoodModulus(ModulusParams(2305843009206845441, 1120240637471598814, 2305561534230135621))
  {
    hide Pow;
    RootCertificate(2305843009206845441, 1120240637471598814, 1975792510548650398, 8227125333190555,
      808403587714708628, 744109769128721876, 1051562602584938509, 1487671543733832651, 1457623074855700825,
      196189289628657032, 1799265437287594101, 1863894611535497819, 1567943067608892715, 508557062075187970);
  }

  lemma GoodModuli(i: nat)
    requires i < MAX_NB_MODULI
    ensures GoodModulus(Params(i))
  {
    hide GoodModulus;
    if i == 0 { Good0(); }
    else if i == 1 { Good1(); }
    else if i == 2 { Good2(); }
    else if i == 3 { Good3(); }
    else if i == 4 { Good4(); }
    else if i == 5 { Good5(); }
    else if i == 6 { Good6(); }
    else if i == 7 { Good7(); }
    else if i == 8 { Good8(); }
    else if i == 9 { Good9(); }
    else if i == 10 { Good10(); }
    else if i == 11 { Good11(); }
    else if i == 12 { Good12(); }
    else if i == 13 { Good13(); }
    else if i == 14 { Good14(); }
    else if i == 15 { Good15(); }
    else { Good16(); }
  }
}
