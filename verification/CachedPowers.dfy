/**
 The table of cached powers of ten. Every entry is within half a unit of the power it stands for; the
 proof walks the table from the exact entry for 10^4 with 128-bit brackets around each power.
 */
module CachedPowers {
  import opened Scaled

  /** frac * 2^exp, with a 64-bit frac. */
  datatype Fp = Fp(frac: nat, exp: int)

  const ENTRIES: int := 87

  const POWERS_0: seq<Fp> := [
    Fp(18054884314459144840, -1220), Fp(13451937075301367670, -1193), Fp(10022474136428063862, -1166),
    Fp(14934650266808366570, -1140), Fp(11127181549972568877, -1113), Fp(16580792590934885855, -1087),
    Fp(12353653155963782858, -1060), Fp(18408377700990114895, -1034)
  ]

  const POWERS_8: seq<Fp> := [
    Fp(13715310171984221708, -1007), Fp(10218702384817765436, -980), Fp(15227053142812498563, -954),
    Fp(11345038669416679861, -927), Fp(16905424996341287883, -901), Fp(12595523146049147757, -874),
    Fp(9384396036005875287, -847), Fp(13983839803942852151, -821)
  ]

  const POWERS_16: seq<Fp> := [
    Fp(10418772551374772303, -794), Fp(15525180923007089351, -768), Fp(11567161174868858868, -741),
    Fp(17236413322193710309, -715), Fp(12842128665889583758, -688), Fp(9568131466127621947, -661),
    Fp(14257626930069360058, -635), Fp(10622759856335341974, -608)
  ]

  const POWERS_24: seq<Fp> := [
    Fp(15829145694278690180, -582), Fp(11793632577567316726, -555), Fp(17573882009934360870, -529),
    Fp(13093562431584567480, -502), Fp(9755464219737475723, -475), Fp(14536774485912137811, -449),
    Fp(10830740992659433045, -422), Fp(16139061738043178685, -396)
  ]

  const POWERS_32: seq<Fp> := [
    Fp(12024538023802026127, -369), Fp(17917957937422433684, -343), Fp(13349918974505688015, -316),
    Fp(9946464728195732843, -289), Fp(14821387422376473014, -263), Fp(11042794154864902060, -236),
    Fp(16455045573212060422, -210), Fp(12259964326927110867, -183)
  ]

  const POWERS_40: seq<Fp> := [
    Fp(18268770466636286478, -157), Fp(13611294676837538539, -130), Fp(10141204801825835212, -103),
    Fp(15111572745182864684, -77), Fp(11258999068426240000, -50), Fp(16777216000000000000, -24),
    Fp(12500000000000000000, 3), Fp(9313225746154785156, 30)
  ]

  const POWERS_48: seq<Fp> := [
    Fp(13877787807814456755, 56), Fp(10339757656912845936, 83), Fp(15407439555097886824, 109),
    Fp(11479437019748901445, 136), Fp(17105694144590052135, 162), Fp(12744735289059618216, 189),
    Fp(9495567745759798747, 216), Fp(14149498560666738074, 242)
  ]

  const POWERS_56: seq<Fp> := [
    Fp(10542197943230523224, 269), Fp(15709099088952724970, 295), Fp(11704190886730495818, 322),
    Fp(17440603504673385349, 348), Fp(12994262207056124023, 375), Fp(9681479787123295682, 402),
    Fp(14426529090290212157, 428), Fp(10748601772107342003, 455)
  ]

  const POWERS_64: seq<Fp> := [
    Fp(16016664761464807395, 481), Fp(11933345169920330789, 508), Fp(17782069995880619868, 534),
    Fp(13248674568444952270, 561), Fp(9871031767461413346, 588), Fp(14708983551653345445, 614),
    Fp(10959046745042015199, 641), Fp(16330252207878254650, 667)
  ]

  const POWERS_72: seq<Fp> := [
    Fp(12166986024289022870, 694), Fp(18130221999122236476, 720), Fp(13508068024458167312, 747),
    Fp(10064294952495520794, 774), Fp(14996968138956309548, 800), Fp(11173611982879273257, 827),
    Fp(16649979327439178909, 853), Fp(12405201291620119593, 880)
  ]

  const POWERS_80: seq<Fp> := [
    Fp(9242595204427927429, 907), Fp(13772540099066387757, 933), Fp(10261342003245940623, 960),
    Fp(15290591125556738113, 986), Fp(11392378155556871081, 1013), Fp(16975966327722178521, 1039),
    Fp(12648080533535911531, 1066)
  ]

  function PowerTen(i: int): Fp
    requires 0 <= i < ENTRIES
  {
    if i < 8 then POWERS_0[i - 0]
    else if i < 16 then POWERS_8[i - 8]
    else if i < 24 then POWERS_16[i - 16]
    else if i < 32 then POWERS_24[i - 24]
    else if i < 40 then POWERS_32[i - 32]
    else if i < 48 then POWERS_40[i - 40]
    else if i < 56 then POWERS_48[i - 48]
    else if i < 64 then POWERS_56[i - 56]
    else if i < 72 then POWERS_64[i - 64]
    else if i < 80 then POWERS_72[i - 72]
    else POWERS_80[i - 80]
  }

  /** The decimal exponent of entry i: first power -348, step 8. */
  function Exponent(i: int): int {
    8 * i - 348
  }

  /** |p - 10^k| is at most half a unit of p's last place. */
  ghost predicate HalfUnit(s: Scale, p: Fp, k: int) {
    p.exp + s.bits >= 0 && k + s.digits >= 0 &&
    2 * TenTo(s, k) <= 2 * p.frac * TwoTo(s, p.exp) + TwoTo(s, p.exp)
    && 2 * p.frac * TwoTo(s, p.exp) <= 2 * TenTo(s, k) + TwoTo(s, p.exp)
  }

  // ----- bracketing the powers -----

  /** The power 10^Exponent(i) lies between low and low + gap, in units of 2^-64 of entry i's last place. */
  datatype Bracket = Bracket(low: nat, gap: nat)

  const BRACKETS_0: seq<Bracket> := [
    Bracket(333053830229260770621607690475650737204, 66), Bracket(248144440523729302452212341484167231027, 48),
    Bracket(184882015380061643162527934822564744225, 35), Bracket(275495671302172009889078043136842167714, 50),
    Bracket(205260270314046747899858685684831565406, 36), Bracket(305861637464235347360161968596028634022, 52),
    Bracket(227884678143438210606695688214919443445, 38), Bracket(339574632262346462319337857089816694625, 56)
  ]

  const BRACKETS_8: seq<Bracket> := [
    Bracket(253002816634138272940619183398646633793, 41), Bracket(188501787658138776526316391973679239894, 30),
    Bracket(280889552322236860582703936060785114608, 43), Bracket(209279024841067836122739267394531603611, 31),
    Bracket(311850048364799970571308236412006025927, 45), Bracket(232346391949653603562197265335921962505, 33),
    Bracket(173111551962534787924734700721444161613, 24), Bracket(257956314031086546070478410603767874261, 34)
  ]

  const BRACKETS_16: seq<Bracket> := [
    Bracket(192192430817400325887261637005036975638, 25), Bracket(286389039184749612044187839336748384890, 37),
    Bracket(213376461852155336770555257303080249496, 27), Bracket(317955705303185189918510999237120523298, 39),
    Bracket(236895460861314229606472700265884789302, 28), Bracket(176500872419263593559319302637789241450, 20),
    Bracket(263006795077418675362049494144006433264, 28), Bracket(195955332426293697477914016056065584171, 20)
  ]

  const BRACKETS_24: seq<Bracket> := [
    Bracket(291996199527820493993034982764818644779, 28), Bracket(217554121857747803623255329403891149744, 20),
    Bracket(324180903818827574883781864350871964909, 27), Bracket(241533595188578646543459493183249209009, 19),
    Bracket(179956551781727855312421540307439274348, 13), Bracket(268156158598851941991480499964116922540, 18),
    Bracket(199791907220223502808422222706762643561, 13), Bracket(297713141471480582369003031710926657261, 19)
  ]

  const BRACKETS_32: seq<Bracket> := [
    Bracket(221813575529665188766273134731446696268, 13), Bracket(330527984395124299475957654016385519905, 18),
    Bracket(246262538727465495076744000625897586275, 13), Bracket(183479889279205720928865671624166955259, 9),
    Bracket(273406340597876490546562778389702670663, 12), Bracket(203703597633448608626844568840937816101, 8),
    Bracket(303542014410270167331165922941174829158, 10), Bracket(226156424291633194186662080095093570023, 6)
  ]

  const BRACKETS_40: seq<Bracket> := [
    Bracket(336999333339382997433337688587745383417, 7), Bracket(251084069415467230553431576928306656642, 4),
    Bracket(187072209578355573530071658587684226515, 2), Bracket(278759314981632789269196478408104518824, 1),
    Bracket(207691874341393105141219853168803840000, 0), Bracket(309485009821345068724781056000000000000, 0),
    Bracket(230584300921369395200000000000000000000, 0), Bracket(171798691840000000000000000000000000000, 0)
  ]

  const BRACKETS_48: seq<Bracket> := [
    Bracket(256000000000000000000000000000000000000, 0), Bracket(190734863281250000000000000000000000000, 0),
    Bracket(284217094304040074348449707031250000000, 0), Bracket(211758236813575084767080625169910490512, 1),
    Bracket(315544362088404722164691426113114491868, 2), Bracket(235098870164457501593747307444449135562, 3),
    Bracket(175162308040602133865466197911239516408, 3), Bracket(261012178719940981068411764370261902225, 5)
  ]

  const BRACKETS_56: seq<Bracket> := [
    Bracket(194469227433160678348252001680628882516, 4), Bracket(289781730522454795760291817308409336978, 7),
    Bracket(215904213877361115634658796570009989275, 6), Bracket(321722349341751807383684510841980560533, 10),
    Bracket(239701829360240554350379489989564240375, 9), Bracket(178591779887855465971216179422709524910, 8),
    Bracket(266122490000509419994378357265456803008, 13), Bracket(198276706040285095568283168424261214590, 10)
  ]

  const BRACKETS_64: seq<Bracket> := [
    Bracket(295455315769143544984285784399898670002, 16), Bracket(220131364292758364218686360418721042574, 13),
    Bracket(328021294314799255458543241647960309049, 20), Bracket(244394909079968374564158351457089415974, 16),
    Bracket(182088396757817547443627082897044283132, 13), Bracket(271332855161752622490565602327949230569, 20),
    Bracket(202158730597609745331529976671896301633, 16), Bracket(301239983137860514717593754339063617040, 25)
  ]

  const BRACKETS_72: seq<Bracket> := [
    Bracket(224441277338460471270675774171250773251, 19), Bracket(334443565217346655235701462881640752033, 30),
    Bracket(249179873777439188387767570377618634725, 23), Bracket(185653473271011701515143789632334288004, 18),
    Bracket(276645233140903266541874095249674153333, 28), Bracket(206116760627108265863265168107803280154, 22),
    Bracket(307137907485825219546653580826227784386, 34), Bracket(228835573409367516299079046268930870582, 26)
  ]

  const BRACKETS_80: seq<Bracket> := [
    Bracket(170495788312977192028670792481996767656, 20), Bracket(254058522452380049271391022923583936178, 31),
    Bracket(189288349786683953755640255602884245051, 24), Bracket(282061621228879621260822200183397896663, 37),
    Bracket(210152284226476863966004699605254751937, 29), Bracket(313151306251401996561891883023462819959, 44),
    Bracket(233315904625804719747522386180954292386, 33)
  ]

  function BracketOf(i: int): Bracket
    requires 0 <= i < ENTRIES
  {
    if i < 8 then BRACKETS_0[i - 0]
    else if i < 16 then BRACKETS_8[i - 8]
    else if i < 24 then BRACKETS_16[i - 16]
    else if i < 32 then BRACKETS_24[i - 24]
    else if i < 40 then BRACKETS_32[i - 32]
    else if i < 48 then BRACKETS_40[i - 40]
    else if i < 56 then BRACKETS_48[i - 48]
    else if i < 64 then BRACKETS_56[i - 56]
    else if i < 72 then BRACKETS_64[i - 64]
    else if i < 80 then BRACKETS_72[i - 72]
    else BRACKETS_80[i - 80]
  }

  /** [low, high] * 10^8 lies within [low', high'] * 2^y. */
  predicate RisesTo(y: int, low: nat, high: nat, low': nat, high': nat) {
    || (y == 26 && 67108864 * low' <= 100000000 * low && 100000000 * high <= 67108864 * high')
    || (y == 27 && 134217728 * low' <= 100000000 * low && 100000000 * high <= 134217728 * high')
  }

  /** [low, high] * 2^y lies within [low', high'] * 10^8. */
  predicate FallsTo(y: int, low: nat, high: nat, low': nat, high': nat) {
    || (y == 26 && 100000000 * low' <= 67108864 * low && 67108864 * high <= 100000000 * high')
    || (y == 27 && 100000000 * low' <= 134217728 * low && 134217728 * high <= 100000000 * high')
  }

  /** The bracket of an entry stays within half a unit of its 64-bit fraction. */
  predicate InHalfUnit(p: Fp, b: Bracket) {
    && 0x8000_0000_0000_0000 <= p.frac < 0x1_0000_0000_0000_0000
    && 2 * p.frac * 0x1_0000_0000_0000_0000 <= 2 * b.low + 0x1_0000_0000_0000_0000
    && 2 * (b.low + b.gap) <= 2 * p.frac * 0x1_0000_0000_0000_0000 + 0x1_0000_0000_0000_0000
  }

  predicate Above(p: Fp, b: Bracket, p': Fp, b': Bracket) {
    RisesTo(p'.exp - p.exp, b.low, b.low + b.gap, b'.low, b'.low + b'.gap)
  }

  predicate Below(p: Fp, b: Bracket, p': Fp, b': Bracket) {
    FallsTo(p.exp - p'.exp, b.low, b.low + b.gap, b'.low, b'.low + b'.gap)
  }

  /** Each bracket holds what its neighbour towards entry 44 implies for it. */
  predicate Links(i: int) {
    && 0 <= i < ENTRIES && -1220 <= PowerTen(i).exp <= 1066 && InHalfUnit(PowerTen(i), BracketOf(i))
    && (i > 44 ==> Above(PowerTen(i - 1), BracketOf(i - 1), PowerTen(i), BracketOf(i)))
    && (i < 44 ==> Below(PowerTen(i + 1), BracketOf(i + 1), PowerTen(i), BracketOf(i)))
  }

  lemma Links0(i: int)
    requires 0 <= i < 8
    ensures Links(i)
  {
    assert Links(0);
    assert Links(1);
    assert Links(2);
    assert Links(3);
    assert Links(4);
    assert Links(5);
    assert Links(6);
    assert Links(7);
  }

  lemma Links8(i: int)
    requires 8 <= i < 16
    ensures Links(i)
  {
    assert Links(8);
    assert Links(9);
    assert Links(10);
    assert Links(11);
    assert Links(12);
    assert Links(13);
    assert Links(14);
    assert Links(15);
  }

  lemma Links16(i: int)
    requires 16 <= i < 24
    ensures Links(i)
  {
    assert Links(16);
    assert Links(17);
    assert Links(18);
    assert Links(19);
    assert Links(20);
    assert Links(21);
    assert Links(22);
    assert Links(23);
  }

  lemma Links24(i: int)
    requires 24 <= i < 32
    ensures Links(i)
  {
    assert Links(24);
    assert Links(25);
    assert Links(26);
    assert Links(27);
    assert Links(28);
    assert Links(29);
    assert Links(30);
    assert Links(31);
  }

  lemma Links32(i: int)
    requires 32 <= i < 40
    ensures Links(i)
  {
    assert Links(32);
    assert Links(33);
    assert Links(34);
    assert Links(35);
    assert Links(36);
    assert Links(37);
    assert Links(38);
    assert Links(39);
  }

  lemma Links40(i: int)
    requires 40 <= i < 48
    ensures Links(i)
  {
    assert Links(40);
    assert Links(41);
    assert Links(42);
    assert Links(43);
    assert Links(44);
    assert Links(45);
    assert Links(46);
    assert Links(47);
  }

  lemma Links48(i: int)
    requires 48 <= i < 56
    ensures Links(i)
  {
    assert Links(48);
    assert Links(49);
    assert Links(50);
    assert Links(51);
    assert Links(52);
    assert Links(53);
    assert Links(54);
    assert Links(55);
  }

  lemma Links56(i: int)
    requires 56 <= i < 64
    ensures Links(i)
  {
    assert Links(56);
    assert Links(57);
    assert Links(58);
    assert Links(59);
    assert Links(60);
    assert Links(61);
    assert Links(62);
    assert Links(63);
  }

  lemma Links64(i: int)
    requires 64 <= i < 72
    ensures Links(i)
  {
    assert Links(64);
    assert Links(65);
    assert Links(66);
    assert Links(67);
    assert Links(68);
    assert Links(69);
    assert Links(70);
    assert Links(71);
  }

  lemma Links72(i: int)
    requires 72 <= i < 80
    ensures Links(i)
  {
    assert Links(72);
    assert Links(73);
    assert Links(74);
    assert Links(75);
    assert Links(76);
    assert Links(77);
    assert Links(78);
    assert Links(79);
  }

  lemma Links80(i: int)
    requires 80 <= i < 87
    ensures Links(i)
  {
    assert Links(80);
    assert Links(81);
    assert Links(82);
    assert Links(83);
    assert Links(84);
    assert Links(85);
    assert Links(86);
  }

  lemma LinksHold(i: int)
    requires 0 <= i < ENTRIES
    ensures Links(i)
  {
    if i < 8 {
      Links0(i);
    } else if i < 16 {
      Links8(i);
    } else if i < 24 {
      Links16(i);
    } else if i < 32 {
      Links24(i);
    } else if i < 40 {
      Links32(i);
    } else if i < 48 {
      Links40(i);
    } else if i < 56 {
      Links48(i);
    } else if i < 64 {
      Links56(i);
    } else if i < 72 {
      Links64(i);
    } else if i < 80 {
      Links72(i);
    } else {
      Links80(i);
    }
  }

  // ----- walking the table -----

  lemma UnitSteps(s: Scale, x: int)
    requires x + s.bits >= 0
    ensures TwoTo(s, x + 26) == 67108864 * TwoTo(s, x) && TwoTo(s, x + 27) == 134217728 * TwoTo(s, x)
  {
    Pow2Values();
    TwoToShift(s, 26, x);
    TwoToShift(s, 27, x);
  }

  lemma TimesE8(s: Scale, k: int)
    requires k + s.digits >= 0
    ensures TenTo(s, k + 8) == 100000000 * TenTo(s, k)
  {
    Pow10Values();
    TenToShift(s, 8, k);
  }

  /** p * a <= q * b, times t. */
  lemma Carry(p: nat, a: nat, q: nat, b: nat, t: nat)
    requires p * a <= q * b
    ensures a * (p * t) <= q * (b * t)
    ensures p * (a * t) <= b * (q * t)
    ensures p * (a * t) <= q * (b * t)
  {
    MulLe(p * a, q * b, t);
    Regroup(p, a, t);
    Regroup(q, b, t);
  }

  /** low * 2^x <= 10^k <= high * 2^x */
  ghost predicate Within(s: Scale, k: int, x: int, low: nat, high: nat) {
    x + s.bits >= 0 && k + s.digits >= 0 && low * TwoTo(s, x) <= TenTo(s, k) <= high * TwoTo(s, x)
  }

  lemma RiseStep(s: Scale, k: int, x: int, k': int, x': int, low: nat, high: nat, low': nat, high': nat)
    requires k' == k + 8 && Within(s, k, x, low, high) && RisesTo(x' - x, low, high, low', high')
    ensures Within(s, k', x', low', high')
  {
    var y := x' - x;
    UnitSteps(s, x);
    TimesE8(s, k);
    var p := if y == 26 then 67108864 else 134217728;
    Carry(p, low', 100000000, low, TwoTo(s, x));
    Carry(100000000, high, p, high', TwoTo(s, x));
  }

  lemma FallStep(s: Scale, k: int, x: int, k': int, x': int, low: nat, high: nat, low': nat, high': nat)
    requires k' == k - 8 && k' + s.digits >= 0 && x' + s.bits >= 0
    requires Within(s, k, x, low, high) && FallsTo(x - x', low, high, low', high')
    ensures Within(s, k', x', low', high')
  {
    UnitSteps(s, x');
    TimesE8(s, k');
    var p := if x - x' == 26 then 67108864 else 134217728;
    Carry(100000000, low', p, low, TwoTo(s, x'));
    Carry(p, high, 100000000, high', TwoTo(s, x'));
    Regroup(p, low, TwoTo(s, x'));
    Regroup(p, high, TwoTo(s, x'));
  }

  /** A table of entries with brackets that are linked as Links says. */
  ghost predicate Linked(ps: seq<Fp>, bs: seq<Bracket>) {
    && |ps| == ENTRIES && |bs| == ENTRIES
    && ps[44].exp == -50 && bs[44] == Bracket(207691874341393105141219853168803840000, 0)
    && forall i :: 0 <= i < ENTRIES ==> LinkedAt(ps, bs, i)
  }

  ghost predicate LinkedAt(ps: seq<Fp>, bs: seq<Bracket>, i: int)
    requires |ps| == ENTRIES && |bs| == ENTRIES && 0 <= i < ENTRIES
  {
    && -1220 <= ps[i].exp <= 1066
    && (i > 44 ==> Above(ps[i - 1], bs[i - 1], ps[i], bs[i]))
    && (i < 44 ==> Below(ps[i + 1], bs[i + 1], ps[i], bs[i]))
  }

  ghost predicate Holds(s: Scale, i: int, p: Fp, b: Bracket) {
    Within(s, Exponent(i), p.exp - 64, b.low, b.low + b.gap)
  }

  lemma {:induction false} Rise(s: Scale, ps: seq<Fp>, bs: seq<Bracket>, i: int)
    requires Ample(s) && Linked(ps, bs) && 44 <= i < ENTRIES
    ensures Holds(s, i, ps[i], bs[i])
    decreases i
  {
    assert LinkedAt(ps, bs, i);
    if i == 44 {
      ExactEntry(s, ps[i].exp - 64, Exponent(i), bs[i].low);
    } else {
      Rise(s, ps, bs, i - 1);
      var p, p', b, b' := ps[i - 1], ps[i], bs[i - 1], bs[i];
      RiseStep(s, Exponent(i - 1), p.exp - 64, Exponent(i), p'.exp - 64, b.low, b.low + b.gap, b'.low, b'.low + b'.gap);
    }
  }

  lemma {:induction false} Fall(s: Scale, ps: seq<Fp>, bs: seq<Bracket>, i: int)
    requires Ample(s) && Linked(ps, bs) && 0 <= i <= 44
    ensures Holds(s, i, ps[i], bs[i])
    decreases 44 - i
  {
    assert LinkedAt(ps, bs, i);
    if i == 44 {
      ExactEntry(s, ps[i].exp - 64, Exponent(i), bs[i].low);
    } else {
      Fall(s, ps, bs, i + 1);
      var p, p', b, b' := ps[i + 1], ps[i], bs[i + 1], bs[i];
      FallStep(s, Exponent(i + 1), p.exp - 64, Exponent(i), p'.exp - 64, b.low, b.low + b.gap, b'.low, b'.low + b'.gap);
    }
  }

  lemma ExactEntry(s: Scale, x: int, k: int, low: nat)
    requires Ample(s) && x == -114 && k == 4 && low == 207691874341393105141219853168803840000
    ensures Within(s, k, x, low, low)
  {
    ExactTen(s, k);
    ExactTwo(s, x);
    Regroup(10000, 20769187434139310514121985316880384, TwoTo(s, x));
  }

  lemma ExactTen(s: Scale, k: int)
    requires Ample(s) && k == 4
    ensures TenTo(s, k) == 10000 * TwoTo(s, 0)
  {
    SameOne(s);
    TenToShift(s, 4, k - 4);
  }

  lemma ExactTwo(s: Scale, x: int)
    requires Ample(s) && x == -114
    ensures TwoTo(s, 0) == 20769187434139310514121985316880384 * TwoTo(s, x)
  {
    Pow2Values();
    Pow2Add(64, 50);
    Pow2Add(26, 24);
    TwoToShift(s, 114, x);
  }

  lemma HalfUnitFrom(s: Scale, p: Fp, k: int, low: nat, high: nat)
    requires 2 * p.frac * 0x1_0000_0000_0000_0000 <= 2 * low + 0x1_0000_0000_0000_0000
    requires 2 * high <= 2 * p.frac * 0x1_0000_0000_0000_0000 + 0x1_0000_0000_0000_0000
    requires Within(s, k, p.exp - 64, low, high)
    ensures HalfUnit(s, p, k)
  {
    Pow2Values();
    TwoToShift(s, 64, p.exp - 64);
    HalfUnitStep(p.frac, low, high, TwoTo(s, p.exp - 64), TenTo(s, k));
  }

  lemma HalfUnitStep(c: nat, low: nat, high: nat, t: nat, z: nat)
    requires 2 * c * 0x1_0000_0000_0000_0000 <= 2 * low + 0x1_0000_0000_0000_0000
    requires 2 * high <= 2 * c * 0x1_0000_0000_0000_0000 + 0x1_0000_0000_0000_0000
    requires low * t <= z <= high * t
    ensures var u := 0x1_0000_0000_0000_0000 * t;
            2 * z <= 2 * c * u + u && 2 * c * u <= 2 * z + u
  {
    MulLe(2 * c * 0x1_0000_0000_0000_0000, 2 * low + 0x1_0000_0000_0000_0000, t);
    MulLe(2 * high, 2 * c * 0x1_0000_0000_0000_0000 + 0x1_0000_0000_0000_0000, t);
    Regroup(2 * c, 0x1_0000_0000_0000_0000, t);
  }

  lemma TableIsLinked(ps: seq<Fp>, bs: seq<Bracket>)
    requires ps == seq(ENTRIES, i requires 0 <= i < ENTRIES => PowerTen(i))
    requires bs == seq(ENTRIES, i requires 0 <= i < ENTRIES => BracketOf(i))
    ensures Linked(ps, bs)
  {
    forall i | 0 <= i < ENTRIES ensures LinkedAt(ps, bs, i) {
      LinksHold(i);
    }
    assert PowerTen(44) == Fp(11258999068426240000, -50);
    assert BracketOf(44) == Bracket(207691874341393105141219853168803840000, 0);
  }

  /** Every cached power is within half a unit of the power of ten that its index stands for. */
  lemma TableIsAccurate(s: Scale, i: int)
    requires Ample(s) && 0 <= i < ENTRIES
    ensures 0x8000_0000_0000_0000 <= PowerTen(i).frac < 0x1_0000_0000_0000_0000
    ensures HalfUnit(s, PowerTen(i), Exponent(i))
  {
    var ps := seq(ENTRIES, i requires 0 <= i < ENTRIES => PowerTen(i));
    var bs := seq(ENTRIES, i requires 0 <= i < ENTRIES => BracketOf(i));
    TableIsLinked(ps, bs);
    LinksHold(i);
    if i >= 44 {
      Rise(s, ps, bs, i);
    } else {
      Fall(s, ps, bs, i);
    }
    HalfUnitFrom(s, ps[i], Exponent(i), bs[i].low, bs[i].low + bs[i].gap);
  }
}
