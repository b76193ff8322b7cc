/** The sines of the angles 1 to 64, in radians, to the places that the constants of RFC 1321
    are taken from. */
module Sine {
  // ---------- sine and cosine ----------

  /** One divided by the factorial. */
  function Term(k: nat): real {
    if k == 0 then 1.0 else Term(k - 1) / (k as real)
  }

  function Signed(n: nat, x: real): real {
    if n % 2 == 0 then x else -x
  }

  /** The first `n` terms of the power series of the sine of 1: 1 - 1/3! + 1/5! - ... */
  function SineSum(n: nat): real {
    if n == 0 then 0.0 else SineSum(n - 1) + Signed(n - 1, Term(2 * n - 1))
  }

  /** The first `n` terms of the power series of the cosine of 1: 1 - 1/2! + 1/4! - ... */
  function CosineSum(n: nat): real {
    if n == 0 then 0.0 else CosineSum(n - 1) + Signed(n - 1, Term(2 * n - 2))
  }

  /** The terms fall and alternate, so that sine and cosine of 1 lie between two sums in a row. */
  predicate AreOf1(s: real, c: real) {
    SineSum(18) <= s <= SineSum(17) && CosineSum(18) <= c <= CosineSum(17)
  }

  datatype Point = Point(cosine: real, sine: real)

  /** The addition theorem: the angle of `p` and the one whose sine and cosine are given. */
  function Turn(p: Point, s: real, c: real): Point {
    Point(p.cosine * c - p.sine * s, p.sine * c + p.cosine * s)
  }

  /** Cosine and sine of the angle `n`, from those of 1. */
  function Turned(s: real, c: real, n: nat): Point {
    if n == 0 then Point(1.0, 0.0) else Turn(Turned(s, c, n - 1), s, c)
  }

  function Magnitude(x: real): real {
    if x < 0.0 then -x else x
  }

  /** The integer part of 4294967296 times the magnitude of the sine of `n`. */
  function ScaledSine(s: real, c: real, n: nat): int {
    (4294967296.0 * Magnitude(Turned(s, c, n).sine)).Floor
  }

  // ---------- the sums as fractions ----------

  /** The sums of `n` terms are `s` and `c` divided by `d`. */
  predicate SumsAre(n: nat, d: real, s: real, c: real) {
    n > 0 && d * Term(2 * n - 1) == 1.0 && d * SineSum(n) == s && d * CosineSum(n) == c
  }

  lemma Times(a: real, b: real, c: real)
    ensures a * (b * c) == (b * a) * c == (a * b) * c
  {
  }

  lemma TermsStep(n: nat, m: real)
    requires n > 0 && m == (2 * n) as real
    ensures Term(2 * n - 1) == (m * (m + 1.0)) * Term(2 * n + 1) && Term(2 * n) == (m + 1.0) * Term(2 * n + 1)
  {
    var t, u := Term(2 * n - 1), Term(2 * n + 1);
    assert Term(2 * n) == t / m;
    assert u == Term(2 * n) / ((2 * n + 1) as real);
    Times(m, m + 1.0, u);
  }

  lemma SumStep(n: nat)
    ensures SineSum(n + 1) == SineSum(n) + Signed(n, Term(2 * n + 1)) && CosineSum(n + 1) == CosineSum(n) + Signed(n, Term(2 * n))
  {
  }

  lemma Scaled(d: real, k: real, x: real, v: real, n: nat, t: real, r: real)
    requires d * x == v && k * d * t == r
    ensures (k * d) * (x + Signed(n, t)) == k * v + Signed(n, r)
  {
    Times(k, d, x);
  }

  /** The next two terms, with `m` and `m + 1` for the factorials. */
  lemma SumsStep(n: nat, m: real, d: real, s: real, c: real)
    requires SumsAre(n, d, s, c) && m == (2 * n) as real
    ensures var k := m * (m + 1.0); SumsAre(n + 1, k * d, k * s + Signed(n, 1.0), k * c + Signed(n, m + 1.0))
  {
    hide Term, SineSum, CosineSum, Signed;
    var k, u := m * (m + 1.0), Term(2 * n + 1);
    TermsStep(n, m);
    SumStep(n);
    Times(k, d, u);
    Times(k * d, m + 1.0, u);
    Scaled(d, k, SineSum(n), s, n, u, 1.0);
    Scaled(d, k, CosineSum(n), c, n, Term(2 * n), m + 1.0);
  }

  lemma FirstSums()
    ensures SumsAre(1, 1.0, 1.0, 1.0)
  {
    assert Term(0) == 1.0;
  }

  lemma SumsOf7()
    ensures SumsAre(7, 6227020800.0, 5239857325.0, 3364473697.0)
  {
    hide SumsAre;
    FirstSums();
    SumsStep(1, 2.0, 1.0, 1.0, 1.0);
    SumsStep(2, 4.0, 6.0, 5.0, 3.0);
    SumsStep(3, 6.0, 120.0, 101.0, 65.0);
    SumsStep(4, 8.0, 5040.0, 4241.0, 2723.0);
    SumsStep(5, 10.0, 362880.0, 305353.0, 196065.0);
    SumsStep(6, 12.0, 39916800.0, 33588829.0, 21567139.0);
  }

  lemma SumsOf13()
    ensures SumsAre(13, 15511210043330985984000000.0, 13052233190723859821607001.0, 8380742553216779108641825.0)
  {
    hide SumsAre;
    SumsOf7();
    SumsStep(7, 14.0, 6227020800.0, 5239857325.0, 3364473697.0);
    SumsStep(8, 16.0, 1307674368000.0, 1100370038249.0, 706539476355.0);
    SumsStep(9, 18.0, 355687428096000.0, 299300650403729.0, 192178737568577.0);
    SumsStep(10, 20.0, 121645100408832000.0, 102360822438075317.0, 65725128248453315.0);
    SumsStep(11, 22.0, 51090942171709440000.0, 42991545423991633141.0, 27604553864350392321.0);
    SumsStep(12, 24.0, 25852016738884976640000.0, 21753721984539766369345.0, 13967904255361298514403.0);
  }

  lemma SumsOf17()
    ensures SumsAre(17, 8683317618811886495518194401280000000.0, 7306759828101397010672254509474141985.0, 4691616532029506538624777530341229697.0)
  {
    hide SumsAre;
    SumsOf13();
    SumsStep(13, 26.0, 15511210043330985984000000.0, 13052233190723859821607001.0, 8380742553216779108641825.0);
    SumsStep(14, 28.0, 10888869450418352160768000000.0, 9162667699888149594768114701.0, 5883281272358178934266561123.0);
    SumsStep(15, 30.0, 8841761993739701954543616000000.0, 7440086172309177470951709137213.0, 4777224393154841294624447631905.0);
    SumsStep(16, 32.0, 8222838654177922817725562880000000.0, 6919280140247535047985089497608089.0, 4442818685634002404000736297671619.0);
  }

  lemma SumsOf18()
    ensures SumsAre(18, 10333147966386144929666651337523200000000.0, 8695044195440662442699982866274228962149.0, 5583023673115112780963485261106063339395.0)
  {
    hide SumsAre;
    SumsOf17();
    SumsStep(17, 34.0, 8683317618811886495518194401280000000.0, 7306759828101397010672254509474141985.0, 4691616532029506538624777530341229697.0);
  }

  // ---------- 36 decimal places ----------

  const SINE1: real := 0.841470984807896506652502321630298999
  const COSINE1: real := 0.540302305868139717400936607442976603
  const UNIT: real := 0.000000000000000000000000000000000001

  predicate IsNear(x: real, y: real, e: real) {
    -e <= x - y <= e
  }

  lemma Of1IsNear(s: real, c: real)
    requires AreOf1(s, c)
    ensures IsNear(s, SINE1, UNIT) && IsNear(c, COSINE1, UNIT)
  {
    hide SineSum, CosineSum, Term;
    SumsOf17();
    SumsOf18();
  }

  predicate AreNear(p: Point, q: Point, e: real) {
    IsNear(p.cosine, q.cosine, e) && IsNear(p.sine, q.sine, e)
  }

  lemma ProductBound(p: real, q: real, m: real, n: real)
    requires -m <= p <= m && -n <= q <= n
    ensures -(m * n) <= p * q <= m * n
  {
    assert (m - p) * (n + q) >= 0.0 && (m + p) * (n - q) >= 0.0;
    assert (m - p) * (n - q) >= 0.0 && (m + p) * (n + q) >= 0.0;
  }

  function Product(x: real, y: real): real {
    x * y
  }

  lemma TurnIsSum(p: Point, s: real, c: real)
    ensures Turn(p, s, c) == Point(Product(p.cosine, c) - Product(p.sine, s), Product(p.sine, c) + Product(p.cosine, s))
  {
  }

  lemma ProductIsNear(x: real, a: real, e: real, y: real, b: real, u: real, h: real)
    requires IsNear(x, a, e) && IsNear(y, b, u) && -h <= y <= h && -1.0 <= a <= 1.0
    ensures IsNear(Product(x, y), Product(a, b), e * h + u)
  {
    ProductBound(x - a, y, e, h);
    ProductBound(a, y - b, 1.0, u);
    assert x * y - a * b == (x - a) * y + a * (y - b);
  }

  lemma TogetherAreNear(x: real, a: real, y: real, b: real, r: real, u: real, e: real)
    requires IsNear(x, a, e * 0.55 + u) && IsNear(y, b, e * 0.85 + u) && e >= 8.0 * u
    ensures IsNear(a + b, r, u) ==> IsNear(x + y, r, 2.0 * e)
    ensures IsNear(a - b, r, u) ==> IsNear(x - y, r, 2.0 * e)
  {
  }

  // ---------- the table ----------

  /** Cosine and sine of the angles 0 to 64. */
  function Row(n: nat): Point {
    match n
    case 0 => Point(1.000000000000000000000000000000000000, 0.000000000000000000000000000000000000)
    case 1 => Point(0.540302305868139717400936607442976603, 0.841470984807896506652502321630298999)
    case 2 => Point(-0.416146836547142386997568229500762190, 0.909297426825681695396019865911744840)
    case 3 => Point(-0.989992496600445457271572794731261300, 0.141120008059867222100744802808110277)
    case 4 => Point(-0.653643620863611914639168183097750377, -0.756802495307928251372639094511829094)
    case 5 => Point(0.283662185463226264466639171513557310, -0.958924274663138468893154406155993969)
    case 6 => Point(0.960170286650366020545652297922924401, -0.279415498198925872811555446611894756)
    case 7 => Point(0.753902254343304638141197521719182005, 0.656986598718789090396999091593635175)
    case 8 => Point(-0.145500033808613525868841381831194685, 0.989358246623381777808123598245288663)
    case 9 => Point(-0.911130261884676988368294711181165305, 0.412118485241756569756272566352435171)
    case 10 => Point(-0.839071529076452452258863947824064824, -0.544021110889369813404747661851377281)
    case 11 => Point(0.004425697988050785748355024723941578, -0.999990206550703457051564899025522097)
    case 12 => Point(0.843853958732492104653955293173621776, -0.536572918000434971665374228242401783)
    case 13 => Point(0.907446781450196213852686155474475837, 0.420167036826640921868955035476882787)
    case 14 => Point(0.136737218207833594248928876671738234, 0.990607355694870307875354804014585591)
    case 15 => Point(-0.759687912858821273848146403633280537, 0.650287840157116865829740270988870311)
    case 16 => Point(-0.957659480323384641899637232651103456, -0.287903316665065294784456248218617532)
    case 17 => Point(-0.275163338051596922220342656551862888, -0.961397491879556857261636944869156086)
    case 18 => Point(0.660316708244080144816100044790450779, -0.750987246771676103750156084447114515)
    case 19 => Point(0.988704618186669252898352856548157250, 0.149877209662952329754239321238253953)
    case 20 => Point(0.408082061813391986062267860927644943, 0.912945250727627654376099983845682287)
    case 21 => Point(-0.547729260224268421384271132950982005, 0.836655638536056031866480770245023755)
    case 22 => Point(-0.999960826394637126454174739212693754, -0.008851309290403875921690256815772341)
    case 23 => Point(-0.532833020333397555215757657164125785, -0.846220404175170635241326271905595915)
    case 24 => Point(0.424179007336996975937050944759206478, -0.905578362006623845135793358527793299)
    case 25 => Point(0.991202811863473598083294718815924175, -0.132351750097773028902005093883606290)
    case 26 => Point(0.646919322328640342721383901888901580, 0.762558450479602737515823293204562960)
    case 27 => Point(-0.292138808733836193371404835837629914, 0.956375928404503013432340558329192923)
    case 28 => Point(-0.962605866313566601975453057899308828, 0.270905788307869019986343092778792516)
    case 29 => Point(-0.748057529689000351765191792255140775, -0.663633884212967502151173340061105142)
    case 30 => Point(0.154251449887584050718662146614210204, -0.988031624092861789987748907294458122)
    case 31 => Point(0.914742357804531278962435826150354745, -0.404037645323065006048770899664237176)
    case 32 => Point(0.834223360506510272215526470870292275, 0.551426681241690550661558166845712809)
    case 33 => Point(-0.013276747223059478915220031371007051, 0.999911860107267145728084376707828283)
    case 34 => Point(-0.848570274784605186599972087712383139, 0.529082686120023820832487134032104726)
    case 35 => Point(-0.903692205091506759847304572083770518, -0.428182669496151004406752891745940664)
    case 36 => Point(-0.127963689627404681028327977914371195, -0.991778853443115736835288968840815748)
    case 37 => Point(0.765414051945343356491081292902511683, -0.643538133356999460685670019080795509)
    case 38 => Point(0.955073644047294857586536235405876916, 0.296368578709385317392296649849017323)
    case 39 => Point(0.266642932359937251526825794975632729, 0.963795386284087753260664971765882082)
    case 40 => Point(-0.666938061652261844384092781933699973, 0.745113160479348786987709402636344304)
    case 41 => Point(-0.987339277523826458228825133414827597, -0.158622668804708987103317011929687041)
    case 42 => Point(-0.399985314988351293954707337177201999, -0.916521547915633785898989158069671472)
    case 43 => Point(0.555113301520625677044879441962591955, -0.831774742628598288209578256291752199)
    case 44 => Point(0.999843308647691220069009016637855990, 0.017701925105413577807954053166616713)
    case 45 => Point(0.525321988817729696047464404823562883, 0.850903524534118424862379677618041090)
    case 46 => Point(-0.432177944884778294952776524132768494, 0.901788347648809185033293039222738522)
    case 47 => Point(-0.992335469150928718279752420344862116, 0.123573122745224004061529348086410526)
    case 48 => Point(-0.640144339469199731312941419393077138, -0.768254661323666799044965664845893471)
    case 49 => Point(0.300592543743637083687026000490561380, -0.953752652759471818360423558587710547)
    case 50 => Point(0.964966028492113274068957058901016951, -0.262374853703928785914393646912622518)
    case 51 => Point(0.742154196813782539467377175736955902, 0.670229175843374734494345074950666788)
    case 52 => Point(-0.162990780795705481003329815425211695, 0.986627592040485296587568934436740059)
    case 53 => Point(-0.918282786212118891199726323216472049, 0.395925150181834181503386139263539236)
    case 54 => Point(-0.829309832863150147727850042488168670, -0.558789048851616245817871318965393784)
    case 55 => Point(0.022126756261955734563564262146626518, -0.999755173358619836598631683243892148)
    case 56 => Point(0.853220107722584113969681233914913716, -0.521551002086911880187410021510600496)
    case 57 => Point(0.899866826969193786503000404657835051, 0.436164755247824959080534793129243481)
    case 58 => Point(0.119180135448819285435843610766963898, 0.992872648084537118165088164425399766)
    case 59 => Point(-0.771080222975845229387435296376289162, 0.636738007139137880771233492376829333)
    case 60 => Point(-0.952412980415156292693816595992933238, -0.304810621102216705625649465478425843)
    case 61 => Point(-0.258101635938267445701207347152754002, -0.966117770008392947018287989480518103)
    case 62 => Point(0.673507162323586252887833405953936468, -0.739180696649222867276016933755436579)
    case 63 => Point(0.985896581582549697438635756053977095, 0.167355700302806921527838370288718038)
    case _ => Point(0.391857230429550005161709858513122901, 0.920026038196790683351536603777251820)
  }

  predicate Follows(q: Point, r: Point) {
    && -1.0 <= q.cosine <= 1.0 && -1.0 <= q.sine <= 1.0
    && IsNear(q.cosine * 0.540302305868139717400936607442976603 - q.sine * 0.841470984807896506652502321630298999, r.cosine, 0.000000000000000000000000000000000001)
    && IsNear(q.sine * 0.540302305868139717400936607442976603 + q.cosine * 0.841470984807896506652502321630298999, r.sine, 0.000000000000000000000000000000000001)
  }

  lemma RowsFrom0()
    ensures forall n :: 0 <= n < 8 ==> Follows(Row(n), Row(n + 1))
  {
  }

  lemma RowsFrom8()
    ensures forall n :: 8 <= n < 16 ==> Follows(Row(n), Row(n + 1))
  {
  }

  lemma RowsFrom16()
    ensures forall n :: 16 <= n < 24 ==> Follows(Row(n), Row(n + 1))
  {
  }

  lemma RowsFrom24()
    ensures forall n :: 24 <= n < 32 ==> Follows(Row(n), Row(n + 1))
  {
  }

  lemma RowsFrom32()
    ensures forall n :: 32 <= n < 40 ==> Follows(Row(n), Row(n + 1))
  {
  }

  lemma RowsFrom40()
    ensures forall n :: 40 <= n < 48 ==> Follows(Row(n), Row(n + 1))
  {
  }

  lemma RowsFrom48()
    ensures forall n :: 48 <= n < 56 ==> Follows(Row(n), Row(n + 1))
  {
  }

  lemma RowsFrom56()
    ensures forall n :: 56 <= n < 64 ==> Follows(Row(n), Row(n + 1))
  {
  }

  lemma RowsFollow(n: nat)
    requires n < 64
    ensures Follows(Row(n), Row(n + 1))
  {
    hide Row, Follows;
    RowsFrom0();
    RowsFrom8();
    RowsFrom16();
    RowsFrom24();
    RowsFrom32();
    RowsFrom40();
    RowsFrom48();
    RowsFrom56();
  }

  lemma RowIsTurned(q: Point, r: Point)
    requires Follows(q, r)
    ensures AreNear(Turn(q, SINE1, COSINE1), r, UNIT)
  {
  }

  lemma Bounds(s: real, c: real, q: Point, r: Point)
    requires IsNear(s, SINE1, UNIT) && IsNear(c, COSINE1, UNIT) && Follows(q, r)
    ensures 0.0 <= s <= 0.85 && 0.0 <= c <= 0.55
    ensures -1.0 <= q.cosine <= 1.0 && -1.0 <= q.sine <= 1.0
  {
  }

  lemma TurnedStep(s: real, c: real, n: nat)
    ensures Turned(s, c, n + 1) == Turn(Turned(s, c, n), s, c)
  {
  }

  /** Turning at most doubles the error. */
  lemma NextIsNear(s: real, c: real, n: nat, q: Point, r: Point, e: real)
    requires AreOf1(s, c) && AreNear(Turned(s, c, n), q, e) && Follows(q, r) && e >= 8.0 * UNIT
    ensures AreNear(Turned(s, c, n + 1), r, 2.0 * e)
  {
    hide SINE1, COSINE1, UNIT, IsNear, Product, Turn, Turned, AreOf1, Follows;
    var p := Turned(s, c, n);
    Of1IsNear(s, c);
    RowIsTurned(q, r);
    Bounds(s, c, q, r);
    TurnedStep(s, c, n);
    TurnIsSum(p, s, c);
    TurnIsSum(q, SINE1, COSINE1);
    ProductIsNear(p.sine, q.sine, e, c, COSINE1, UNIT, 0.55);
    ProductIsNear(p.cosine, q.cosine, e, s, SINE1, UNIT, 0.85);
    ProductIsNear(p.cosine, q.cosine, e, c, COSINE1, UNIT, 0.55);
    ProductIsNear(p.sine, q.sine, e, s, SINE1, UNIT, 0.85);
    TogetherAreNear(Product(p.sine, c), Product(q.sine, COSINE1), Product(p.cosine, s), Product(q.cosine, SINE1), r.sine, UNIT, e);
    TogetherAreNear(Product(p.cosine, c), Product(q.cosine, COSINE1), Product(p.sine, s), Product(q.sine, SINE1), r.cosine, UNIT, e);
  }

  function Error(n: nat): (e: real)
    ensures e > 0.0
  {
    if n == 0 then 8.0 * UNIT else 2.0 * Error(n - 1)
  }

  /** After 64 turns, each of which may double it, the error is still small. */
  lemma {:induction false} RowIsNear(s: real, c: real, n: nat)
    requires AreOf1(s, c) && n <= 64
    ensures AreNear(Turned(s, c, n), Row(n), Error(n)) && Error(n) >= 8.0 * UNIT
  {
    hide AreOf1, Turned, Follows, Row, Error;
    FirstRow(s, c);
    if n > 0 {
      RowIsNear(s, c, n - 1);
      RowsFollow(n - 1);
      NextIsNear(s, c, n - 1, Row(n - 1), Row(n), Error(n - 1));
      ErrorStep(n - 1);
    }
  }

  lemma FirstRow(s: real, c: real)
    ensures Turned(s, c, 0) == Row(0) && Error(0) == 8.0 * UNIT
  {
  }

  lemma ErrorStep(n: nat)
    ensures Error(n + 1) == 2.0 * Error(n)
  {
  }

  lemma {:induction false} ErrorsGrow(n: nat, m: nat)
    requires n <= m
    ensures Error(n) <= Error(m)
    decreases m
  {
    if n < m {
      ErrorsGrow(n, m - 1);
    }
  }

  lemma EightErrors(n: nat)
    ensures Error(n + 8) == 256.0 * Error(n)
  {
    hide Error;
    ErrorStep(n);
    ErrorStep(n + 1);
    ErrorStep(n + 2);
    ErrorStep(n + 3);
    ErrorStep(n + 4);
    ErrorStep(n + 5);
    ErrorStep(n + 6);
    ErrorStep(n + 7);
  }

  lemma ErrorIsSmall(n: nat)
    requires n <= 64
    ensures Error(n) <= 0.000_000_000_000_000_2
  {
    ErrorsGrow(n, 64);
    hide Error;
    FirstRow(1.0, 1.0);
    EightErrors(0);
    EightErrors(8);
    EightErrors(16);
    EightErrors(24);
    EightErrors(32);
    EightErrors(40);
    EightErrors(48);
    EightErrors(56);
  }

  /** The row of an angle decides the integer part, whichever values between the sums are taken
      for sine and cosine of 1. */
  lemma RowDecides(s: real, c: real, n: nat, t: nat)
    requires AreOf1(s, c) && n <= 64
    requires t as real + 0.000_001 <= 4294967296.0 * Magnitude(Row(n).sine) <= t as real + 0.999_999
    ensures ScaledSine(s, c, n) == t
  {
    hide AreOf1, Turned, Error, Row;
    RowIsNear(s, c, n);
    ErrorIsSmall(n);
  }

  /** The sums of 18 terms are such values. */
  lemma SumsAreOf1()
    ensures AreOf1(SineSum(18), CosineSum(18))
  {
    hide SineSum, CosineSum, Term;
    SumsOf17();
    SumsOf18();
  }
}
