// The table T of RFC 1321, section 3.4: T[i] is the integer part of 4294967296 times abs(sin(i)), i in
// radians. The sine of whole radians is fixed by the angle addition formulas and the angle one; fixed
// point approximations, one rotation by one radian at a time, are close enough to tell the integer part.
module Md5Sines {
  import opened Bits
  import opened Md5

  const SCALE := 1000000000000000000000000000000000000
  const COS_ONE := 540302305868139717400936607442976604
  const SIN_ONE := 841470984807896506652502321630299000

  function Abs(x: real): real { if x < 0.0 then -x else x }

  /** The angle addition formulas, for i radians and one more. */
  ghost predicate Adds(s: nat -> real, c: nat -> real, i: nat) {
    s(i + 1) == s(i) * c(1) + c(i) * s(1) && c(i + 1) == c(i) * c(1) - s(i) * s(1)
  }

  /** s and c are sine and cosine at whole radians: those of one radian are known to 35 decimals, and
      the angle addition formulas give the others. */
  ghost predicate IsSine(s: nat -> real, c: nat -> real) {
    && s(0) == 0.0 && c(0) == 1.0
    && Abs(s(1) * SCALE as real - SIN_ONE as real) <= 1.0 && Abs(c(1) * SCALE as real - COS_ONE as real) <= 1.0
    && (forall i: nat :: Adds(s, c, i))
  }

  /** SCALE * sin(i), to the nearest integer. */
  function SinOf(i: nat): int
    requires i <= 64
  {
    match i
    case 0 => 0
    case 1 => 841470984807896506652502321630299000
    case 2 => 909297426825681695396019865911744843
    case 3 => 141120008059867222100744802808110280
    case 4 => -756802495307928251372639094511829094
    case 5 => -958924274663138468893154406155993973
    case 6 => -279415498198925872811555446611894760
    case 7 => 656986598718789090396999091593635178
    case 8 => 989358246623381777808123598245288672
    case 9 => 412118485241756569756272566352435179
    case 10 => -544021110889369813404747661851377282
    case 11 => -999990206550703457051564899025522107
    case 12 => -536572918000434971665374228242401792
    case 13 => 420167036826640921868955035476882788
    case 14 => 990607355694870307875354804014585604
    case 15 => 650287840157116865829740270988870325
    case 16 => -287903316665065294784456248218617530
    case 17 => -961397491879556857261636944869156098
    case 18 => -750987246771676103750156084447114531
    case 19 => 149877209662952329754239321238253949
    case 20 => 912945250727627654376099983845682301
    case 21 => 836655638536056031866480770245023776
    case 22 => -8851309290403875921690256815772332
    case 23 => -846220404175170635241326271905595928
    case 24 => -905578362006623845135793358527793322
    case 25 => -132351750097773028902005093883606301
    case 26 => 762558450479602737515823293204562973
    case 27 => 956375928404503013432340558329192950
    case 28 => 270905788307869019986343092778792533
    case 29 => -663633884212967502151173340061105151
    case 30 => -988031624092861789987748907294458150
    case 31 => -404037645323065006048770899664237198
    case 32 => 551426681241690550661558166845712816
    case 33 => 999911860107267145728084376707828314
    case 34 => 529082686120023820832487134032104754
    case 35 => -428182669496151004406752891745940666
    case 36 => -991778853443115736835288968840815779
    case 37 => -643538133356999460685670019080795541
    case 38 => 296368578709385317392296649849017321
    case 39 => 963795386284087753260664971765882115
    case 40 => 745113160479348786987709402636344342
    case 41 => -158622668804708987103317011929687032
    case 42 => -916521547915633785898989158069671502
    case 43 => -831774742628598288209578256291752240
    case 44 => 17701925105413577807954053166616699
    case 45 => 850903524534118424862379677618041119
    case 46 => 901788347648809185033293039222738569
    case 47 => 123573122745224004061529348086410548
    case 48 => -768254661323666799044965664845893495
    case 49 => -953752652759471818360423558587710595
    case 50 => -262374853703928785914393646912622546
    case 51 => 670229175843374734494345074950666808
    case 52 => 986627592040485296587568934436740111
    case 53 => 395925150181834181503386139263539273
    case 54 => -558789048851616245817871318965393797
    case 55 => -999755173358619836598631683243892199
    case 56 => -521551002086911880187410021510600538
    case 57 => 436164755247824959080534793129243488
    case 58 => 992872648084537118165088164425399818
    case 59 => 636738007139137880771233492376829383
    case 60 => -304810621102216705625649465478425841
    case 61 => -966117770008392947018287989480518152
    case 62 => -739180696649222867276016933755436634
    case 63 => 167355700302806921527838370288718029
    case _ => 920026038196790683351536603777251867
  }

  /** SCALE * cos(i), to the nearest integer. */
  function CosOf(i: nat): int
    requires i <= 64
  {
    match i
    case 0 => 1000000000000000000000000000000000000
    case 1 => 540302305868139717400936607442976604
    case 2 => -416146836547142386997568229500762190
    case 3 => -989992496600445457271572794731261302
    case 4 => -653643620863611914639168183097750381
    case 5 => 283662185463226264466639171513557308
    case 6 => 960170286650366020545652297922924405
    case 7 => 753902254343304638141197521719182012
    case 8 => -145500033808613525868841381831194683
    case 9 => -911130261884676988368294711181165311
    case 10 => -839071529076452452258863947824064835
    case 11 => 4425697988050785748355024723941573
    case 12 => 843853958732492104653955293173621783
    case 13 => 907446781450196213852686155474475850
    case 14 => 136737218207833594248928876671738241
    case 15 => -759687912858821273848146403633280544
    case 16 => -957659480323384641899637232651103472
    case 17 => -275163338051596922220342656551862899
    case 18 => 660316708244080144816100044790450785
    case 19 => 988704618186669252898352856548157268
    case 20 => 408082061813391986062267860927644957
    case 21 => -547729260224268421384271132950982009
    case 22 => -999960826394637126454174739212693774
    case 23 => -532833020333397555215757657164125803
    case 24 => 424179007336996975937050944759206479
    case 25 => 991202811863473598083294718815924197
    case 26 => 646919322328640342721383901888901602
    case 27 => -292138808733836193371404835837629912
    case 28 => -962605866313566601975453057899308851
    case 29 => -748057529689000351765191792255140803
    case 30 => 154251449887584050718662146614210197
    case 31 => 914742357804531278962435826150354766
    case 32 => 834223360506510272215526470870292307
    case 33 => -13276747223059478915220031371007039
    case 34 => -848570274784605186599972087712383159
    case 35 => -903692205091506759847304572083770553
    case 36 => -127963689627404681028327977914371213
    case 37 => 765414051945343356491081292902511701
    case 38 => 955073644047294857586536235405876954
    case 39 => 266642932359937251526825794975632752
    case 40 => -666938061652261844384092781933699988
    case 41 => -987339277523826458228825133414827638
    case 42 => -399985314988351293954707337177202028
    case 43 => 555113301520625677044879441962591965
    case 44 => 999843308647691220069009016637856032
    case 45 => 525321988817729696047464404823562919
    case 46 => -432177944884778294952776524132768499
    case 47 => -992335469150928718279752420344862158
    case 48 => -640144339469199731312941419393077180
    case 49 => 300592543743637083687026000490561378
    case 50 => 964966028492113274068957058901016992
    case 51 => 742154196813782539467377175736955949
    case 52 => -162990780795705481003329815425211686
    case 53 => -918282786212118891199726323216472088
    case 54 => -829309832863150147727850042488168722
    case 55 => 22126756261955734563564262146626501
    case 56 => 853220107722584113969681233914913751
    case 57 => 899866826969193786503000404657835107
    case 58 => 119180135448819285435843610766963922
    case 59 => -771080222975845229387435296376289193
    case 60 => -952412980415156292693816595992933297
    case 61 => -258101635938267445701207347152754036
    case 62 => 673507162323586252887833405953936491
    case 63 => 985896581582549697438635756053977155
    case _ => 391857230429550005161709858513122942
  }

  // ------------------------------------------------------------ one rotation

  function IntAbs(x: int): int { if x < 0 then -x else x }

  /** The table entries are a rotation by one radian apart, up to rounding. */
  predicate Rotates(i: nat)
    requires i < 64
  {
    && -SCALE <= SinOf(i) <= SCALE && -SCALE <= CosOf(i) <= SCALE
    && -2 * SCALE <= SinOf(i) * COS_ONE + CosOf(i) * SIN_ONE - SinOf(i + 1) * SCALE <= 2 * SCALE
    && -2 * SCALE <= CosOf(i) * COS_ONE - SinOf(i) * SIN_ONE - CosOf(i + 1) * SCALE <= 2 * SCALE
  }

  lemma TableRotates0(i: nat)
    requires 0 <= i < 8
    ensures Rotates(i)
  {
    match i
    case 0 => case 1 => case 2 => case 3 => case 4 => case 5 => case 6 => case 7 =>
  }

  lemma TableRotates8(i: nat)
    requires 8 <= i < 16
    ensures Rotates(i)
  {
    match i
    case 8 => case 9 => case 10 => case 11 => case 12 => case 13 => case 14 => case 15 =>
  }

  lemma TableRotates16(i: nat)
    requires 16 <= i < 24
    ensures Rotates(i)
  {
    match i
    case 16 => case 17 => case 18 => case 19 => case 20 => case 21 => case 22 => case 23 =>
  }

  lemma TableRotates24(i: nat)
    requires 24 <= i < 32
    ensures Rotates(i)
  {
    match i
    case 24 => case 25 => case 26 => case 27 => case 28 => case 29 => case 30 => case 31 =>
  }

  lemma TableRotates32(i: nat)
    requires 32 <= i < 40
    ensures Rotates(i)
  {
    match i
    case 32 => case 33 => case 34 => case 35 => case 36 => case 37 => case 38 => case 39 =>
  }

  lemma TableRotates40(i: nat)
    requires 40 <= i < 44
    ensures Rotates(i)
  {
    match i
    case 40 => case 41 => case 42 => case 43 =>
  }

  lemma TableRotates44(i: nat)
    requires 44 <= i < 48
    ensures Rotates(i)
  {
    match i
    case 44 => case 45 => case 46 => case 47 =>
  }

  lemma TableRotates48(i: nat)
    requires 48 <= i < 52
    ensures Rotates(i)
  {
    match i
    case 48 => case 49 => case 50 => case 51 =>
  }

  lemma TableRotates52(i: nat)
    requires 52 <= i < 56
    ensures Rotates(i)
  {
    match i
    case 52 => case 53 => case 54 => case 55 =>
  }

  lemma TableRotates56(i: nat)
    requires 56 <= i < 60
    ensures Rotates(i)
  {
    match i
    case 56 => case 57 => case 58 => case 59 =>
  }

  lemma TableRotates60(i: nat)
    requires 60 <= i < 64
    ensures Rotates(i)
  {
    match i
    case 60 => case 61 => case 62 => case 63 =>
  }

  lemma TableRotates(i: nat)
    requires i < 64
    ensures Rotates(i)
  {
    hide Rotates;
    match i / 4
    case 0 => TableRotates0(i);
    case 1 => TableRotates0(i);
    case 2 => TableRotates8(i);
    case 3 => TableRotates8(i);
    case 4 => TableRotates16(i);
    case 5 => TableRotates16(i);
    case 6 => TableRotates24(i);
    case 7 => TableRotates24(i);
    case 8 => TableRotates32(i);
    case 9 => TableRotates32(i);
    case 10 => TableRotates40(i);
    case 11 => TableRotates44(i);
    case 12 => TableRotates48(i);
    case 13 => TableRotates52(i);
    case 14 => TableRotates56(i);
    case 15 => TableRotates60(i);
  }

  lemma ProductSmall(a: real, b: real, p: real, q: real)
    requires Abs(a) <= p && Abs(b) <= q
    ensures Abs(a * b) <= p * q
  {
    var x, y := Abs(a), Abs(b);
    assert x * y <= p * y;
    assert p * y <= p * q;
    assert Abs(a * b) == x * y;
  }

  lemma Triangle(a: real, b: real, p: real, q: real)
    requires Abs(a) <= p && Abs(b) <= q
    ensures Abs(a + b) <= p + q
  {}

  /** The error of a product of two approximations. */
  lemma ProductError(x: real, x': real, u: real, u': real, e: real, p: real, q: real, error: real)
    requires Abs(x - x') <= e && Abs(u - u') <= 1.0 && Abs(x') <= p && Abs(u) <= q
    requires error == x * u - x' * u'
    ensures Abs(error) <= e * q + p
  {
    hide Abs;
    var d, f := x - x', u - u';
    ProductSmall(d, u, e, q);
    ProductSmall(x', f, p, 1.0);
    Expand(x, x', u, u', d, f);
    Triangle(d * u, x' * f, e * q, p);
  }

  lemma Expand(x: real, x': real, u: real, u': real, d: real, f: real)
    requires d == x - x' && f == u - u'
    ensures d * u + x' * f == x * u - x' * u'
  {}

  /** Errors, in units of 1 / SCALE, at most double with each rotation. */
  function Error(i: nat): real { 8.0 * (Pow2(i) - 1) as real }

  lemma ErrorStep(i: nat)
    ensures Error(i + 1) == 2.0 * Error(i) + 8.0
  {}

  /** One coordinate of a rotation: (x, y) and (u, v) are known up to e and 1, and so is
      (x * u + y * v) / SCALE up to 2 * e + 8. */
  lemma RotatedError(x: real, y: real, u: real, v: real, x': int, y': int, u': int, v': int, z: real, z': int, e: real)
    requires Abs(x - x' as real) <= e && Abs(y - y' as real) <= e
    requires Abs(u - u' as real) <= 1.0 && Abs(v - v' as real) <= 1.0
    requires IntAbs(x') <= SCALE && IntAbs(y') <= SCALE && IntAbs(u') + 1 <= SCALE && IntAbs(v') + 1 <= SCALE
    requires IntAbs(x' * u' + y' * v' - z' * SCALE) <= 2 * SCALE && z * SCALE as real == x * u + y * v
    ensures Abs(z - z' as real) <= 2.0 * e + 8.0
  {
    hide Abs, IntAbs;
    var k := SCALE as real;
    SmallerThanScale(x', y', u, u', v, v');
    RoundingError(x', y', u', v', z');
    var a, b := x * u - x' as real * u' as real, y * v - y' as real * v' as real;
    ProductError(x, x' as real, u, u' as real, e, k, k, a);
    ProductError(y, y' as real, v, v' as real, e, k, k, b);
    var r := x' as real * u' as real + y' as real * v' as real - z' as real * k;
    Triangle(a, b, e * k + k, e * k + k);
    Triangle(a + b, r, 2.0 * (e * k) + 2.0 * k, 2.0 * k);
    assert a + b + r == z * k - z' as real * k;
    Factor(z, z' as real, e, k);
    Unscale(z - z' as real, 2.0 * e + 4.0, k);
    Weaken(z - z' as real, 2.0 * e + 4.0, 2.0 * e + 8.0);
  }

  lemma SmallerThanScale(x: int, y: int, u: real, u': int, v: real, v': int)
    requires Abs(u - u' as real) <= 1.0 && Abs(v - v' as real) <= 1.0
    requires IntAbs(x) <= SCALE && IntAbs(y) <= SCALE && IntAbs(u') + 1 <= SCALE && IntAbs(v') + 1 <= SCALE
    ensures Abs(x as real) <= SCALE as real && Abs(y as real) <= SCALE as real
    ensures Abs(u) <= SCALE as real && Abs(v) <= SCALE as real
  {}

  lemma RoundingError(x: int, y: int, u: int, v: int, z: int)
    requires IntAbs(x * u + y * v - z * SCALE) <= 2 * SCALE
    ensures Abs(x as real * u as real + y as real * v as real - z as real * SCALE as real) <= 2.0 * SCALE as real
  {
    CastProduct(x, u);
    CastProduct(y, v);
    CastProduct(z, SCALE);
    var p, q, r := x * u, y * v, z * SCALE;
    assert (p + q - r) as real == p as real + q as real - r as real;
  }

  lemma Factor(z: real, z': real, e: real, k: real)
    ensures z * k - z' * k == (z - z') * k
    ensures 2.0 * (e * k) + 2.0 * k + 2.0 * k == (2.0 * e + 4.0) * k
  {}

  lemma Weaken(d: real, b: real, c: real)
    requires Abs(d) <= b <= c
    ensures Abs(d) <= c
  {}

  lemma CastProduct(a: int, b: int)
    ensures (a * b) as real == a as real * b as real
  {}

  lemma Unscale(d: real, b: real, k: real)
    requires k > 0.0 && Abs(d * k) <= b * k
    ensures Abs(d) <= b
  {
    if d > b { assert (d - b) * k > 0.0; }
    if -d > b { assert (-d - b) * k > 0.0; }
  }
  // ------------------------------------------------------------ sixty-four rotations

  /** Bounds on the scaled sine and cosine of i. */
  ghost predicate Near(s: nat -> real, c: nat -> real, i: nat)
    requires i <= 64
  {
    && Abs(s(i) * SCALE as real - SinOf(i) as real) <= Error(i)
    && Abs(c(i) * SCALE as real - CosOf(i) as real) <= Error(i)
  }

  lemma NearStart(s: nat -> real, c: nat -> real)
    requires IsSine(s, c)
    ensures Near(s, c, 0)
  {
    assert SinOf(0) == 0 && CosOf(0) == SCALE;
  }

  lemma ScaledProducts(p: real, q: real, u: real, v: real, k: real)
    ensures (p * u + q * v) * k * k == (p * k) * (u * k) + (q * k) * (v * k)
  {
    ScaledProduct(p, u, k);
    ScaledProduct(q, v, k);
    assert (p * u + q * v) * k == p * u * k + q * v * k;
    assert (p * u * k + q * v * k) * k == p * u * k * k + q * v * k * k;
  }

  lemma ScaledProduct(p: real, u: real, k: real)
    ensures p * u * k * k == (p * k) * (u * k)
  {
    assert p * u * k == p * k * u;
  }

  /** RotatedError on values that are not scaled yet. */
  lemma NextCoordinate(p: real, q: real, u: real, v: real, r: real, p': int, q': int, u': int, v': int,
                       r': int, e: real)
    requires r == p * u + q * v
    requires Abs(p * SCALE as real - p' as real) <= e && Abs(q * SCALE as real - q' as real) <= e
    requires Abs(u * SCALE as real - u' as real) <= 1.0 && Abs(v * SCALE as real - v' as real) <= 1.0
    requires IntAbs(p') <= SCALE && IntAbs(q') <= SCALE && IntAbs(u') + 1 <= SCALE && IntAbs(v') + 1 <= SCALE
    requires IntAbs(p' * u' + q' * v' - r' * SCALE) <= 2 * SCALE
    ensures Abs(r * SCALE as real - r' as real) <= 2.0 * e + 8.0
  {
    hide Abs, IntAbs;
    var k := SCALE as real;
    ScaledProducts(p, q, u, v, k);
    RotatedError(p * k, q * k, u * k, v * k, p', q', u', v', r * k, r', e);
  }

  lemma Opposite(v: real, v': int, p: int, q: int, u: int, r: int)
    requires Abs(v * SCALE as real - v' as real) <= 1.0 && IntAbs(p * u - q * v' - r * SCALE) <= 2 * SCALE
    ensures Abs((-v) * SCALE as real - (-v') as real) <= 1.0
    ensures IntAbs(p * u + q * -v' - r * SCALE) <= 2 * SCALE
  {
    assert q * -v' == -(q * v');
  }

  lemma RotatesAbs(i: nat)
    requires i < 64 && Rotates(i)
    ensures IntAbs(SinOf(i)) <= SCALE && IntAbs(CosOf(i)) <= SCALE
    ensures IntAbs(SinOf(i) * COS_ONE + CosOf(i) * SIN_ONE - SinOf(i + 1) * SCALE) <= 2 * SCALE
    ensures IntAbs(CosOf(i) * COS_ONE - SinOf(i) * SIN_ONE - CosOf(i + 1) * SCALE) <= 2 * SCALE
  {
    hide SinOf, CosOf;
  }

  lemma NearNext(s: nat -> real, c: nat -> real, i: nat)
    requires i < 64 && IsSine(s, c) && Near(s, c, i)
    ensures Near(s, c, i + 1)
  {
    hide SinOf, CosOf, Error, Abs, IntAbs;
    assert Adds(s, c, i);
    TableRotates(i);
    RotatesAbs(i);
    ErrorStep(i);
    SmallOne();
    NextCoordinate(s(i), c(i), c(1), s(1), s(i + 1), SinOf(i), CosOf(i), COS_ONE, SIN_ONE, SinOf(i + 1), Error(i));
    Opposite(s(1), SIN_ONE, CosOf(i), SinOf(i), COS_ONE, CosOf(i + 1));
    NextCosine(s, c, i);
    NextCoordinate(c(i), s(i), c(1), -s(1), c(i + 1), CosOf(i), SinOf(i), COS_ONE, -SIN_ONE, CosOf(i + 1), Error(i));
  }

  lemma SmallOne()
    ensures IntAbs(COS_ONE) + 1 <= SCALE && IntAbs(SIN_ONE) + 1 <= SCALE && IntAbs(-SIN_ONE) + 1 <= SCALE
  {}

  lemma NextCosine(s: nat -> real, c: nat -> real, i: nat)
    requires IsSine(s, c)
    ensures c(i + 1) == c(i) * c(1) + s(i) * -s(1)
  {
    assert Adds(s, c, i);
    assert s(i) * -s(1) == -(s(i) * s(1));
  }

  lemma {:induction false} AllNear(s: nat -> real, c: nat -> real, i: nat)
    requires i <= 64 && IsSine(s, c)
    ensures Near(s, c, i)
  {
    hide Near, IsSine;
    if i == 0 {
      NearStart(s, c);
    } else {
      AllNear(s, c, i - 1);
      NearNext(s, c, i - 1);
    }
  }

  // ------------------------------------------------------------ the table

  const MARGIN := SCALE / 100

  /** The code's constant i is the integer part of 2^32 times the entry for i + 1, with a margin. */
  predicate TableEntry(i: nat)
    requires i < 64
  {
    var t, a := Sine(i) as int, IntAbs(SinOf(i + 1));
    t * SCALE + MARGIN <= WORD * a <= (t + 1) * SCALE - MARGIN
  }

  lemma CodeTable0(i: nat)
    requires 0 <= i < 8
    ensures TableEntry(i)
  {
    match i
    case 0 => case 1 => case 2 => case 3 => case 4 => case 5 => case 6 => case 7 =>
  }

  lemma CodeTable8(i: nat)
    requires 8 <= i < 16
    ensures TableEntry(i)
  {
    match i
    case 8 => case 9 => case 10 => case 11 => case 12 => case 13 => case 14 => case 15 =>
  }

  lemma CodeTable16(i: nat)
    requires 16 <= i < 24
    ensures TableEntry(i)
  {
    match i
    case 16 => case 17 => case 18 => case 19 => case 20 => case 21 => case 22 => case 23 =>
  }

  lemma CodeTable24(i: nat)
    requires 24 <= i < 32
    ensures TableEntry(i)
  {
    match i
    case 24 => case 25 => case 26 => case 27 => case 28 => case 29 => case 30 => case 31 =>
  }

  lemma CodeTable32(i: nat)
    requires 32 <= i < 40
    ensures TableEntry(i)
  {
    match i
    case 32 => case 33 => case 34 => case 35 => case 36 => case 37 => case 38 => case 39 =>
  }

  lemma CodeTable40(i: nat)
    requires 40 <= i < 48
    ensures TableEntry(i)
  {
    match i
    case 40 => case 41 => case 42 => case 43 => case 44 => case 45 => case 46 => case 47 =>
  }

  lemma CodeTable48(i: nat)
    requires 48 <= i < 56
    ensures TableEntry(i)
  {
    match i
    case 48 => case 49 => case 50 => case 51 => case 52 => case 53 => case 54 => case 55 =>
  }

  lemma CodeTable56(i: nat)
    requires 56 <= i < 64
    ensures TableEntry(i)
  {
    match i
    case 56 => case 57 => case 58 => case 59 => case 60 => case 61 => case 62 => case 63 =>
  }

  lemma CodeTable(i: nat)
    requires i < 64
    ensures TableEntry(i)
  {
    hide TableEntry;
    match i / 8
    case 0 => CodeTable0(i);
    case 1 => CodeTable8(i);
    case 2 => CodeTable16(i);
    case 3 => CodeTable24(i);
    case 4 => CodeTable32(i);
    case 5 => CodeTable40(i);
    case 6 => CodeTable48(i);
    case 7 => CodeTable56(i);
  }

  lemma ErrorWithinMargin(i: nat)
    requires i <= 64
    ensures Error(i) * WORD as real < MARGIN as real
  {
    hide Pow2;
    WordIsPow2();
    Pow2Twice(32);
    Pow2Monotone(i, 64);
    assert (Pow2(i) - 1) as real <= (WORD * WORD) as real;
  }

  lemma {:induction false} Pow2Sum(j: nat, k: nat)
    ensures Pow2(j + k) == Pow2(j) * Pow2(k)
  {
    if k > 0 { Pow2Sum(j, k - 1); }
  }

  lemma Pow2Twice(k: nat)
    ensures Pow2(k + k) == Pow2(k) * Pow2(k)
  {
    Pow2Sum(k, k);
  }

  /** The integer part of an approximated value. */
  lemma FloorOf(x: real, a: int, t: int, e: real)
    requires Abs(x * SCALE as real - a as real) <= e && e * WORD as real < MARGIN as real
    requires t * SCALE + MARGIN <= WORD * IntAbs(a) <= (t + 1) * SCALE - MARGIN
    ensures (WORD as real * Abs(x)).Floor == t
  {
    var z, b := Abs(x) * SCALE as real, IntAbs(a);
    AbsScaled(x, a, e);
    assert (t * SCALE + MARGIN) as real <= (WORD * b) as real <= ((t + 1) * SCALE - MARGIN) as real;
    assert (WORD * b) as real == WORD as real * b as real;
    assert t as real * SCALE as real < WORD as real * z < (t as real + 1.0) * SCALE as real;
  }

  lemma AbsScaled(x: real, a: int, e: real)
    requires Abs(x * SCALE as real - a as real) <= e
    ensures Abs(Abs(x) * SCALE as real - IntAbs(a) as real) <= e
  {}

  /** Each constant of the code is T[i] of section 3.4 of RFC 1321: the integer part of 4294967296
      times abs(sin(i)), for i from 1 to 64. */
  lemma TableIsSine(s: nat -> real, c: nat -> real, i: nat)
    requires IsSine(s, c) && 1 <= i <= 64
    ensures (4294967296.0 * Abs(s(i))).Floor == Sine(i - 1) as int
  {
    hide SinOf, IsSine, Sine, Error;
    AllNear(s, c, i);
    CodeTable(i - 1);
    ErrorWithinMargin(i);
    FloorOf(s(i), SinOf(i), Sine(i - 1) as int, Error(i));
  }

  // ------------------------------------------------------------ such functions exist

  const COS := COS_ONE as real / SCALE as real
  const SIN := SIN_ONE as real / SCALE as real

  /** One rotation. */
  function NextSin(x: real, y: real): real { x * COS + y * SIN }

  function NextCos(x: real, y: real): real { y * COS - x * SIN }

  function TurnedSin(i: nat): real {
    if i == 0 then 0.0 else NextSin(TurnedSin(i - 1), TurnedCos(i - 1))
  }

  function TurnedCos(i: nat): real {
    if i == 0 then 1.0 else NextCos(TurnedSin(i - 1), TurnedCos(i - 1))
  }

  lemma TurnedNext(i: nat)
    ensures TurnedSin(0) == 0.0 && TurnedCos(0) == 1.0
    ensures TurnedSin(i + 1) == NextSin(TurnedSin(i), TurnedCos(i))
    ensures TurnedCos(i + 1) == NextCos(TurnedSin(i), TurnedCos(i))
  {
    hide NextSin, NextCos;
  }

  lemma NextWith(x: real, y: real, u: real, v: real)
    requires u == COS && v == SIN
    ensures NextSin(x, y) == x * u + y * v && NextCos(x, y) == y * u - x * v
  {}

  lemma TurnedOnce()
    ensures TurnedCos(1) == COS && TurnedSin(1) == SIN
  {
    TurnedNext(0);
    NextWith(0.0, 1.0, COS, SIN);
  }

  /** What TableIsSine asks of sine and cosine can be met. */
  lemma SomeSine()
    ensures IsSine(TurnedSin, TurnedCos)
  {
    hide TurnedSin, TurnedCos, NextSin, NextCos;
    TurnedNext(0);
    TurnedOnce();
    forall i: nat ensures Adds(TurnedSin, TurnedCos, i) {
      TurnedNext(i);
      NextWith(TurnedSin(i), TurnedCos(i), TurnedCos(1), TurnedSin(1));
    }
  }
}
