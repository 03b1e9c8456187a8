/** Certificates that the moduli of the library are pairwise coprime: for every pair, integers u and
    v with u*a - v*b == 1. */
module NflCoprime {
  import opened Arith
  import opened Crt
  import opened NflParams

  lemma Certify(a: int, b: int, u: int, v: int)
    requires a > 1 && b > 1 && u * a - v * b == 1
    ensures Invertible(a, b) && Invertible(b, a)
  {
    CongByMultiple(a * u, 1, v, b);
    CongByMultiple(b * (-v), 1, -u, a);
    assert Cong(a * u, 1, b) && Cong(b * (-v), 1, a);
  }

  /** Any two different moduli. */
  lemma PairCoprime(i: nat, j: nat)
    requires i < j < MAX_NB_MODULI
    ensures Params(i).p > 1 && Params(j).p > 1
    ensures Invertible(Params(i).p, Params(j).p) && Invertible(Params(j).p, Params(i).p)
  {
    hide Invertible, Params;
    GoodModuli(i);
    GoodModuli(j);
    if i == 0 { Coprime0(j); }
    else if i == 1 { Coprime1(j); }
    else if i == 2 { Coprime2(j); }
    else if i == 3 { Coprime3(j); }
    else if i == 4 { Coprime4(j); }
    else if i == 5 { Coprime5(j); }
    else if i == 6 { Coprime6(j); }
    else if i == 7 { Coprime7(j); }
    else if i == 8 { Coprime8(j); }
    else if i == 9 { Coprime9(j); }
    else if i == 10 { Coprime10(j); }
    else if i == 11 { Coprime11(j); }
    else if i == 12 { Coprime12(j); }
    else if i == 13 { Coprime13(j); }
    else if i == 14 { Coprime14(j); }
    else { Coprime15(j); }
  }

  lemma Coprime0(j: nat)
    requires 0 < j < MAX_NB_MODULI
    ensures Params(0).p > 1 && Params(j).p > 1
    ensures Invertible(Params(0).p, Params(j).p) && Invertible(Params(j).p, Params(0).p)
  {
    hide Invertible;
    if j == 1 { Certify(2305843009213317121, 2305843009213120513, 1729370528785810777, 1729370528785958232); }
    else if j == 2 { Certify(2305843009213317121, 2305843009212694529, 182036533951308640, 182036533951357791); }
    else if j == 3 { Certify(2305843009213317121, 2305843009212399617, 41173254852215078, 41173254852231461); }
    else if j == 4 { Certify(2305843009213317121, 2305843009211662337, 296790281012507477, 296790281012720468); }
    else if j == 5 { Certify(2305843009213317121, 2305843009211596801, 329404803816053303, 329404803816299062); }
    else if j == 6 { Certify(2305843009213317121, 2305843009211400193, 354743875455699558, 354743875455994469); }
    else if j == 7 { Certify(2305843009213317121, 2305843009210580993, 1491203019504517318, 1491203019506286789); }
    else if j == 8 { Certify(2305843009213317121, 2305843009210515457, 1577681235907262885, 1577681235909179812); }
    else if j == 9 { Certify(2305843009213317121, 2305843009210023937, 2237011174420230411, 2237011174423425290); }
    else if j == 10 { Certify(2305843009213317121, 2305843009209057281, 44342593494449736, 44342593494531655); }
    else if j == 11 { Certify(2305843009213317121, 2305843009208795137, 175444066869189648, 175444066869533711); }
    else if j == 12 { Certify(2305843009213317121, 2305843009208713217, 1288317479388895445, 1288317479391467732); }
    else if j == 13 { Certify(2305843009213317121, 2305843009208123393, 2073076078507340101, 2073076078512009540); }
    else if j == 14 { Certify(2305843009213317121, 2305843009207468033, 1046348534325270214, 1046348534327924421); }
    else if j == 15 { Certify(2305843009213317121, 2305843009206976513, 697114964702139269, 697114964704056196); }
    else { Certify(2305843009213317121, 2305843009206845441, 671321026129870559, 671321026131754718); }
  }

  lemma Coprime1(j: nat)
    requires 1 < j < MAX_NB_MODULI
    ensures Params(1).p > 1 && Params(j).p > 1
    ensures Invertible(Params(1).p, Params(j).p) && Invertible(Params(j).p, Params(1).p)
  {
    hide Invertible;
    if j == 2 { Certify(2305843009213120513, 2305843009212694529, 1507661169966440451, 1507661169966718978); }
    else if j == 3 { Certify(2305843009213120513, 2305843009212399617, 1939001150076600695, 1939001150077206902); }
    else if j == 4 { Certify(2305843009213120513, 2305843009211662337, 829065568059380220, 829065568059904507); }
    else if j == 5 { Certify(2305843009213120513, 2305843009211596801, 2305841495905270401, 2305841495906794112); }
    else if j == 6 { Certify(2305843009213120513, 2305843009211400193, 131761117312190914, 131761117312289217); }
    else if j == 7 { Certify(2305843009213120513, 2305843009210580993, 461167693858320359, 461167693858828262); }
    else if j == 8 { Certify(2305843009213120513, 2305843009210515457, 1392206214759252382, 1392206214760825245); }
    else if j == 9 { Certify(2305843009213120513, 2305843009210023937, 73200620728951262, 73200620729049565); }
    else if j == 10 { Certify(2305843009213120513, 2305843009209057281, 864690560963524081, 864690560965047792); }
    else if j == 11 { Certify(2305843009213120513, 2305843009208795137, 1860395531151458368, 1860395531154948159); }
    else if j == 12 { Certify(2305843009213120513, 2305843009208713217, 197153340053204643, 197153340053581474); }
    else if j == 13 { Certify(2305843009213120513, 2305843009208123393, 801374486028107294, 801374486029843997); }
    else if j == 14 { Certify(2305843009213120513, 2305843009207468033, 541371429009613205, 541371429010940308); }
    else if j == 15 { Certify(2305843009213120513, 2305843009206976513, 1143697757266691404, 1143697757269738827); }
    else { Certify(2305843009213120513, 2305843009206845441, 1559303390723458523, 1559303390727701978); }
  }

  lemma Coprime2(j: nat)
    requires 2 < j < MAX_NB_MODULI
    ensures Params(2).p > 1 && Params(j).p > 1
    ensures Invertible(Params(2).p, Params(j).p) && Invertible(Params(j).p, Params(2).p)
  {
    hide Invertible;
    if j == 3 { Certify(2305843009212694529, 2305843009212399617, 2177732801062357680, 2177732801062636207); }
    else if j == 4 { Certify(2305843009212694529, 2305843009211662337, 951615515904997866, 951615515905423849); }
    else if j == 5 { Certify(2305843009212694529, 2305843009211596801, 1135711620395437899, 1135711620395978570); }
    else if j == 6 { Certify(2305843009212694529, 2305843009211400193, 2276653341531656454, 2276653341532934405); }
    else if j == 7 { Certify(2305843009212694529, 2305843009210580993, 1912597374015843497, 1912597374017596584); }
    else if j == 8 { Certify(2305843009212694529, 2305843009210515457, 2028447303309337995, 2028447303311254922); }
    else if j == 9 { Certify(2305843009212694529, 2305843009210023937, 2051209175447638747, 2051209175450014426); }
    else if j == 10 { Certify(2305843009212694529, 2305843009209057281, 1796895044394948444, 1796895044397782875); }
    else if j == 11 { Certify(2305843009212694529, 2305843009208795137, 590992784975832556, 590992784976831979); }
    else if j == 12 { Certify(2305843009212694529, 2305843009208713217, 332116726686488097, 332116726687061536); }
    else if j == 13 { Certify(2305843009212694529, 2305843009208123393, 1256229378717370612, 1256229378719860979); }
    else if j == 14 { Certify(2305843009212694529, 2305843009207468033, 173479910606554476, 173479910606947691); }
    else if j == 15 { Certify(2305843009212694529, 2305843009206976513, 951407600539588146, 951407600541947441); }
    else { Certify(2305843009212694529, 2305843009206845441, 1931223862788118857, 1931223862793017672); }
  }

  lemma Coprime3(j: nat)
    requires 3 < j < MAX_NB_MODULI
    ensures Params(3).p > 1 && Params(j).p > 1
    ensures Invertible(Params(3).p, Params(j).p) && Invertible(Params(j).p, Params(3).p)
  {
    hide Invertible;
    if j == 4 { Certify(2305843009212399617, 2305843009211662337, 871093120424664545, 871093120424943072); }
    else if j == 5 { Certify(2305843009212399617, 2305843009211596801, 376461292575600392, 376461292575731463); }
    else if j == 6 { Certify(2305843009212399617, 2305843009211400193, 264602628311335183, 264602628311449870); }
    else if j == 7 { Certify(2305843009212399617, 2305843009210580993, 1100986835591643581, 1100986835592511932); }
    else if j == 8 { Certify(2305843009212399617, 2305843009210515457, 340862525383394849, 340862525383673376); }
    else if j == 9 { Certify(2305843009212399617, 2305843009210023937, 1940087630249203898, 1940087630251202745); }
    else if j == 10 { Certify(2305843009212399617, 2305843009209057281, 1684168958993437156, 1684168958995878371); }
    else if j == 11 { Certify(2305843009212399617, 2305843009208795137, 387800230014713932, 387800230015320139); }
    else if j == 12 { Certify(2305843009212399617, 2305843009208713217, 2018893031451680661, 2018893031454908308); }
    else if j == 13 { Certify(2305843009212399617, 2305843009208123393, 309212124845961547, 309212124846534986); }
    else if j == 14 { Certify(2305843009212399617, 2305843009207468033, 2206254637588911756, 2206254637593630347); }
    else if j == 15 { Certify(2305843009212399617, 2305843009206976513, 2048089740088709184, 2048089740093526079); }
    else { Certify(2305843009212399617, 2305843009206845441, 1523624464085088566, 1523624464088758581); }
  }

  lemma Coprime4(j: nat)
    requires 4 < j < MAX_NB_MODULI
    ensures Params(4).p > 1 && Params(j).p > 1
    ensures Invertible(Params(4).p, Params(j).p) && Invertible(Params(j).p, Params(4).p)
  {
    hide Invertible;
    if j == 5 { Certify(2305843009211662337, 2305843009211596801, 2305807824839508001, 2305807824839573536); }
    else if j == 6 { Certify(2305843009211662337, 2305843009211400193, 576451956209827849, 576451956209893384); }
    else if j == 7 { Certify(2305843009211662337, 2305843009210580993, 2166092815660116158, 2166092815661131965); }
    else if j == 8 { Certify(2305843009211662337, 2305843009210515457, 395285362471969005, 395285362472165612); }
    else if j == 9 { Certify(2305843009211662337, 2305843009210023937, 2121374161098338471, 2121374161099845798); }
    else if j == 10 { Certify(2305843009211662337, 2305843009209057281, 420561676286630856, 420561676287105991); }
    else if j == 11 { Certify(2305843009211662337, 2305843009208795137, 1541619950513946720, 1541619950515863647); }
    else if j == 12 { Certify(2305843009211662337, 2305843009208713217, 1947155537012422522, 1947155537014912889); }
    else if j == 13 { Certify(2305843009211662337, 2305843009208123393, 2006936782377957606, 2006936782381037797); }
    else if j == 14 { Certify(2305843009211662337, 2305843009207468033, 1188949751866786818, 1188949751868949505); }
    else if j == 15 { Certify(2305843009211662337, 2305843009206976513, 2096220425371767617, 2096220425376027456); }
    else { Certify(2305843009211662337, 2305843009206845441, 1192136043067864463, 1192136043070354830); }
  }

  lemma Coprime5(j: nat)
    requires 5 < j < MAX_NB_MODULI
    ensures Params(5).p > 1 && Params(j).p > 1
    ensures Invertible(Params(5).p, Params(j).p) && Invertible(Params(j).p, Params(5).p)
  {
    hide Invertible;
    if j == 6 { Certify(2305843009211596801, 2305843009211400193, 2305831281087370594, 2305831281087567201); }
    else if j == 7 { Certify(2305843009211596801, 2305843009210580993, 2305840739251091394, 2305840739252107201); }
    else if j == 8 { Certify(2305843009211596801, 2305843009210515457, 2305840876824328258, 2305840876825409601); }
    else if j == 9 { Certify(2305843009211596801, 2305843009210023937, 2305841543194520238, 2305841543196093101); }
    else if j == 10 { Certify(2305843009211596801, 2305843009209057281, 2305842101225261442, 2305842101227800961); }
    else if j == 11 { Certify(2305843009211596801, 2305843009208795137, 404533038238453211, 404533038238944730); }
    else if j == 12 { Certify(2305843009211596801, 2305843009208713217, 2305842209563893018, 2305842209566776601); }
    else if j == 13 { Certify(2305843009211596801, 2305843009208123393, 1696751739146126860, 1696751739148682763); }
    else if j == 14 { Certify(2305843009211596801, 2305843009207468033, 1098019922092888131, 1098019922094854210); }
    else if j == 15 { Certify(2305843009211596801, 2305843009206976513, 1668056145889130687, 1668056145892473022); }
    else { Certify(2305843009211596801, 2305843009206845441, 2226330696001477133, 2226330696006064652); }
  }

  lemma Coprime6(j: nat)
    requires 6 < j < MAX_NB_MODULI
    ensures Params(6).p > 1 && Params(j).p > 1
    ensures Invertible(Params(6).p, Params(j).p) && Invertible(Params(j).p, Params(6).p)
  {
    hide Invertible;
    if j == 7 { Certify(2305843009211400193, 2305843009210580993, 737866948197618815, 737866948197880958); }
    else if j == 8 { Certify(2305843009211400193, 2305843009210515457, 768611730153720798, 768611730154015709); }
    else if j == 9 { Certify(2305843009211400193, 2305843009210023937, 1317622901245152308, 1317622901245938739); }
    else if j == 10 { Certify(2305843009211400193, 2305843009209057281, 2176843814725415230, 2176843814727627069); }
    else if j == 11 { Certify(2305843009211400193, 2305843009208795137, 957141496039573107, 957141496040654450); }
    else if j == 12 { Certify(2305843009211400193, 2305843009208713217, 1743441417099951731, 1743441417101983346); }
    else if j == 13 { Certify(2305843009211400193, 2305843009208123393, 1337388241653269793, 1337388241655170336); }
    else if j == 14 { Certify(2305843009211400193, 2305843009207468033, 345875864974918726, 345875864975508549); }
    else if j == 15 { Certify(2305843009211400193, 2305843009206976513, 1076059549713298836, 1076059549715363219); }
    else { Certify(2305843009211400193, 2305843009206845441, 132709882769140907, 132709882769403050); }
  }

  lemma Coprime7(j: nat)
    requires 7 < j < MAX_NB_MODULI
    ensures Params(7).p > 1 && Params(j).p > 1
    ensures Invertible(Params(7).p, Params(j).p) && Invertible(Params(j).p, Params(7).p)
  {
    hide Invertible;
    if j == 8 { Certify(2305843009210580993, 2305843009210515457, 1152886320233168945, 1152886320233201712); }
    else if j == 9 { Certify(2305843009210580993, 2305843009210023937, 1085098453231530232, 1085098453231792375); }
    else if j == 10 { Certify(2305843009210580993, 2305843009209057281, 1537227159499711789, 1537227159500727596); }
    else if j == 11 { Certify(2305843009210580993, 2305843009208795137, 782716060580156560, 782716060580762767); }
    else if j == 12 { Certify(2305843009210580993, 2305843009208713217, 404532626725314994, 404532626725642673); }
    else if j == 13 { Certify(2305843009210580993, 2305843009208123393, 1783184322204359724, 1783184322206260267); }
    else if j == 14 { Certify(2305843009210580993, 2305843009207468033, 1165056779718045138, 1165056779719618001); }
    else if j == 15 { Certify(2305843009210580993, 2305843009206976513, 1110996446538414343, 1110996446540151046); }
    else { Certify(2305843009210580993, 2305843009206845441, 1355187817965916378, 1355187817968111833); }
  }

  lemma Coprime8(j: nat)
    requires 8 < j < MAX_NB_MODULI
    ensures Params(8).p > 1 && Params(j).p > 1
    ensures Invertible(Params(8).p, Params(j).p) && Invertible(Params(j).p, Params(8).p)
  {
    hide Invertible;
    if j == 9 { Certify(2305843009210515457, 2305843009210023937, 922332512434397738, 922332512434594345); }
    else if j == 10 { Certify(2305843009210515457, 2305843009209057281, 1943124550035853270, 1943124550037082069); }
    else if j == 11 { Certify(2305843009210515457, 2305843009208795137, 263523574981116063, 263523574981312670); }
    else if j == 12 { Certify(2305843009210515457, 2305843009208713217, 461167322410030325, 461167322410390772); }
    else if j == 13 { Certify(2305843009210515457, 2305843009208123393, 726497518397844665, 726497518398598328); }
    else if j == 14 { Certify(2305843009210515457, 2305843009207468033, 818201601452712555, 818201601453793898); }
    else if j == 15 { Certify(2305843009210515457, 2305843009206976513, 1345074437141623545, 1345074437143687928); }
    else { Certify(2305843009210515457, 2305843009206845441, 2285254496903711308, 2285254496907348555); }
  }

  lemma Coprime9(j: nat)
    requires 9 < j < MAX_NB_MODULI
    ensures Params(9).p > 1 && Params(j).p > 1
    ensures Invertible(Params(9).p, Params(j).p) && Invertible(Params(j).p, Params(9).p)
  {
    hide Invertible;
    if j == 10 { Certify(2305843009210023937, 2305843009209057281, 1915019774809414436, 1915019774810217251); }
    else if j == 11 { Certify(2305843009210023937, 2305843009208795137, 1291270208657080543, 1291270208657768670); }
    else if j == 12 { Certify(2305843009210023937, 2305843009208713217, 922335444464880849, 922335444465405136); }
    else if j == 13 { Certify(2305843009210023937, 2305843009208123393, 1272188033205444329, 1272188033206492904); }
    else if j == 14 { Certify(2305843009210023937, 2305843009207468033, 2128469567874275909, 2128469567876635204); }
    else if j == 15 { Certify(2305843009210023937, 2305843009206976513, 74381275901900560, 74381275901998863); }
    else { Certify(2305843009210023937, 2305843009206845441, 1402522342004739212, 1402522342006672523); }
  }

  lemma Coprime10(j: nat)
    requires 10 < j < MAX_NB_MODULI
    ensures Params(10).p > 1 && Params(j).p > 1
    ensures Invertible(Params(10).p, Params(j).p) && Invertible(Params(j).p, Params(10).p)
  {
    hide Invertible;
    if j == 11 { Certify(2305843009209057281, 2305843009208795137, 720567144284726291, 720567144284808210); }
    else if j == 12 { Certify(2305843009209057281, 2305843009208713217, 1866628115193322365, 1866628115193600892); }
    else if j == 13 { Certify(2305843009209057281, 2305843009208123393, 566344936691673202, 566344936691902577); }
    else if j == 14 { Certify(2305843009209057281, 2305843009207468033, 974633223092967365, 974633223093639108); }
    else if j == 15 { Certify(2305843009209057281, 2305843009206976513, 1742998331861270790, 1742998331862843653); }
    else { Certify(2305843009209057281, 2305843009206845441, 1878834002038997360, 1878834002040799599); }
  }

  lemma Coprime11(j: nat)
    requires 11 < j < MAX_NB_MODULI
    ensures Params(11).p > 1 && Params(j).p > 1
    ensures Invertible(Params(11).p, Params(j).p) && Invertible(Params(j).p, Params(11).p)
  {
    hide Invertible;
    if j == 12 { Certify(2305843009208795137, 2305843009208713217, 922309056185814282, 922309056185847049); }
    else if j == 13 { Certify(2305843009208795137, 2305843009208123393, 731117521517493881, 731117521517706872); }
    else if j == 14 { Certify(2305843009208795137, 2305843009207468033, 1110218970637072819, 1110218970637711794); }
    else if j == 15 { Certify(2305843009208795137, 2305843009206976513, 810159789383637199, 810159789384276174); }
    else { Certify(2305843009208795137, 2305843009206845441, 1181985569950665689, 1181985569951665112); }
  }

  lemma Coprime12(j: nat)
    requires 12 < j < MAX_NB_MODULI
    ensures Params(12).p > 1 && Params(j).p > 1
    ensures Invertible(Params(12).p, Params(j).p) && Invertible(Params(j).p, Params(12).p)
  {
    hide Invertible;
    if j == 13 { Certify(2305843009208713217, 2305843009208123393, 512405648227128671, 512405648227259742); }
    else if j == 14 { Certify(2305843009208713217, 2305843009207468033, 606798940087644812, 606798940087972491); }
    else if j == 15 { Certify(2305843009208713217, 2305843009206976513, 1044153997211759601, 1044153997212546032); }
    else { Certify(2305843009208713217, 2305843009206845441, 404532626724987315, 404532626725314994); }
  }

  lemma Coprime13(j: nat)
    requires 13 < j < MAX_NB_MODULI
    ensures Params(13).p > 1 && Params(j).p > 1
    ensures Invertible(Params(13).p, Params(j).p) && Invertible(Params(j).p, Params(13).p)
  {
    hide Invertible;
    if j == 14 { Certify(2305843009208123393, 2305843009207468033, 2075255189849512356, 2075255189850102179); }
    else if j == 15 { Certify(2305843009208123393, 2305843009206976513, 1844672396830033283, 1844672396830950786); }
    else { Certify(2305843009208123393, 2305843009206845441, 1123357610415022716, 1123357610415645307); }
  }

  lemma Coprime14(j: nat)
    requires 14 < j < MAX_NB_MODULI
    ensures Params(14).p > 1 && Params(j).p > 1
    ensures Invertible(Params(14).p, Params(j).p) && Invertible(Params(j).p, Params(14).p)
  {
    hide Invertible;
    if j == 15 { Certify(2305843009207468033, 2305843009206976513, 461163910591783472, 461163910591881775); }
    else { Certify(2305843009207468033, 2305843009206845441, 1213597880174961945, 1213597880175289624); }
  }

  lemma Coprime15(j: nat)
    requires 15 < j < MAX_NB_MODULI
    ensures Params(15).p > 1 && Params(j).p > 1
    ensures Invertible(Params(15).p, Params(j).p) && Invertible(Params(j).p, Params(15).p)
  {
    hide Invertible;
    Certify(2305843009206976513, 2305843009206845441, 1729364664719089717, 1729364664719188020);
  }
}
