/** The checksum of the EEPROM: the words 0x00 to 0x3E and the sections that words 0x03 to
    0x0E point to. Reads may fail and then leave what was read before. */
module NvmChecksum {

  type Word = x: nat | x < 0x10000

  /** The words that can be read. */
  type Image = map<nat, Word>

  const CHECKSUM: nat := 0x3F
  const FIRST_PTR: nat := 0x03
  const FW_PTR: nat := 0x0F
  const SUM: nat := 0xBABA

  function Mod16(x: int): Word {
    x % 0x10000
  }

  lemma Fits16(x: int)
    ensures 0 <= x < 0x10000 ==> Mod16(x) == x
  {
  }

  lemma ModSum(a: int, b: int)
    ensures Mod16(Mod16(a) + b) == Mod16(a + b)
  {
  }

  // ----- what the checksum covers

  ghost function Sum(image: Image, addrs: seq<nat>): nat {
    if addrs == [] then 0
    else Sum(image, addrs[1..]) + if addrs[0] in image then image[addrs[0]] else 0
  }

  ghost function Range(from: nat, end: nat): seq<nat>
    decreases end - from
  {
    if from >= end then [] else [from] + Range(from + 1, end)
  }

  predicate Real(w: Word) {
    w != 0xFFFF && w != 0
  }

  /** The section behind pointer word i: the words after its length word. */
  ghost function Section(image: Image, i: nat): seq<nat> {
    if i in image && Real(image[i]) && image[i] in image && Real(image[image[i]]) then
      var p: nat, length: nat := image[i], image[image[i]];
      Range(p + 1, p + length + 1)
    else []
  }

  ghost function Sections(image: Image, i: nat): seq<nat>
    decreases FW_PTR - i
  {
    if i >= FW_PTR then [] else Section(image, i) + Sections(image, i + 1)
  }

  ghost function Covered(image: Image): seq<nat> {
    Range(0, CHECKSUM) + Sections(image, FIRST_PTR)
  }

  /** Pointer word i and what it leads to can be read. */
  ghost predicate SectionRead(image: Image, i: nat) {
    && i in image && (Real(image[i]) ==> image[i] in image)
    && (forall a | a in Section(image, i) :: a in image)
  }

  /** Every word the calculation looks at can be read. */
  ghost predicate AllRead(image: Image) {
    && (forall i | 0 <= i <= CHECKSUM :: i in image)
    && (forall i | FIRST_PTR <= i < FW_PTR :: SectionRead(image, i))
  }

  // ----- what the calculation does

  datatype Vars = Vars(sum: Word, at: Word, length: Word, word: Word)

  const ZERO := Vars(0, 0, 0, 0)

  function Seen(image: Image, a: nat, stale: Word): Word {
    if a in image then image[a] else stale
  }

  function Add(v: Vars, w: Word): Vars {
    v.(sum := Mod16(v.sum as int + w), word := w)
  }

  ghost function Head(image: Image, i: nat, v: Vars): Vars
    decreases CHECKSUM - i
  {
    if i >= CHECKSUM || i !in image then v else Head(image, i + 1, Add(v, image[i]))
  }

  ghost function Walk(image: Image, j: nat, end: nat, v: Vars): Vars
    decreases end - j
  {
    if j >= end then v else Walk(image, j + 1, end, Add(v, Seen(image, j, v.word)))
  }

  /** The pointer and the length as read, which may be stale. */
  function Looked(image: Image, i: nat, v: Vars): Vars {
    var p := Seen(image, i, v.at);
    if Real(p) then v.(at := p, length := Seen(image, p, v.length)) else v.(at := p)
  }

  ghost function Sect(image: Image, i: nat, v: Vars): Vars {
    var u := Looked(image, i, v);
    if Real(u.at) && Real(u.length) then Walk(image, u.at as int + 1, u.at as int + u.length + 1, u) else u
  }

  ghost function Sects(image: Image, i: nat, v: Vars): Vars
    decreases FW_PTR - i
  {
    if i >= FW_PTR then v else Sects(image, i + 1, Sect(image, i, v))
  }

  /** Every section that is walked ends before the last 16-bit address. */
  ghost predicate Ends(image: Image, i: nat, v: Vars)
    decreases FW_PTR - i
  {
    i >= FW_PTR
    || (var u := Looked(image, i, v);
        && (Real(u.at) && Real(u.length) ==> u.at as int + u.length < 0xFFFF)
        && Ends(image, i + 1, Sect(image, i, v)))
  }

  /** After n rounds the 16-bit counter is past the end of the section. */
  predicate Passed(p: nat, length: nat, n: nat) {
    Mod16(p + 1 + n) > p + length
  }

  /** The counter ever passes the end exactly if that is below the last address. */
  lemma CounterEnds(p: Word, length: Word)
    requires Real(p) && Real(length)
    ensures (exists n: nat :: Passed(p, length, n)) <==> p as int + length < 0xFFFF
  {
    if p as int + length < 0xFFFF {
      assert Passed(p, length, length);
    }
  }

  ghost function Total(image: Image): Word {
    Sects(image, FIRST_PTR, Head(image, 0, ZERO)).sum
  }

  method Calc(image: Image) returns (checksum: Word)
    requires Ends(image, FIRST_PTR, Head(image, 0, ZERO))
    ensures checksum == Mod16(SUM - Total(image))
  {
    var v, i := ZERO, 0;
    while i < CHECKSUM
      invariant i <= CHECKSUM && Head(image, 0, ZERO) == Head(image, i, v)
    {
      if i !in image {
        break;
      }
      v := Add(v, image[i]);
      i := i + 1;
    }
    i := FIRST_PTR;
    while i < FW_PTR
      invariant FIRST_PTR <= i <= FW_PTR && Ends(image, i, v)
      invariant Sects(image, FIRST_PTR, Head(image, 0, ZERO)) == Sects(image, i, v)
    {
      v := CalcSection(image, i, v);
      i := i + 1;
    }
    checksum := Mod16(SUM - v.sum);
  }

  method CalcSection(image: Image, i: nat, v: Vars) returns (r: Vars)
    requires i < FW_PTR && Ends(image, i, v)
    ensures r == Sect(image, i, v)
  {
    hide Mod16;
    var u := Looked(image, i, v);
    r := u;
    if Real(u.at) && Real(u.length) {
      assert u.at as int + u.length < 0xFFFF;
      hide Ends, Looked;
      Fits16(u.at as int + 1);
      var j: Word := Mod16(u.at as int + 1);
      while j <= u.at as int + u.length
        invariant j <= u.at as int + u.length + 1 && r.at == u.at && r.length == u.length
        invariant Sect(image, i, v) == Walk(image, j, u.at as int + u.length + 1, r)
      {
        r := Add(r, Seen(image, j, r.word));
        Fits16(j as int + 1);
        j := Mod16(j as int + 1);
      }
    }
  }

  /** Validation: an unreadable first word is an error; otherwise the stored checksum, or 0
      if it cannot be read, has to be the calculated one. */
  method Validate(image: Image) returns (ok: bool, checksum: Word)
    requires Ends(image, FIRST_PTR, Head(image, 0, ZERO))
    ensures ok <==> 0 in image && Mod16(Total(image) as int + Seen(image, CHECKSUM, 0)) == SUM
    ensures 0 in image ==> Mod16(Total(image) as int + checksum) == SUM
  {
    if 0 !in image {
      return false, 0;
    }
    checksum := Calc(image);
    var stored := Seen(image, CHECKSUM, 0);
    ok := stored == checksum;
  }

  // ----- the two agree

  lemma {:induction false} SumAppend(image: Image, s: seq<nat>, t: seq<nat>)
    ensures Sum(image, s + t) == Sum(image, s) + Sum(image, t)
  {
    if s == [] {
      assert s + t == t;
    } else {
      SumAppend(image, s[1..], t);
      assert (s + t)[1..] == s[1..] + t;
    }
  }

  lemma {:induction false} HeadSum(image: Image, i: nat, v: Vars)
    requires forall a | i <= a < CHECKSUM :: a in image
    ensures Head(image, i, v).sum == Mod16(v.sum as int + Sum(image, Range(i, CHECKSUM)))
    decreases CHECKSUM - i
  {
    hide Mod16;
    if i >= CHECKSUM {
      Small(v.sum);
    } else {
      ModSum(v.sum as int + image[i], Sum(image, Range(i + 1, CHECKSUM)));
      HeadSum(image, i + 1, Add(v, image[i]));
      assert Range(i, CHECKSUM)[1..] == Range(i + 1, CHECKSUM);
    }
  }

  lemma {:induction false} WalkSum(image: Image, j: nat, end: nat, v: Vars)
    requires forall a | a in Range(j, end) :: a in image
    ensures Walk(image, j, end, v).sum == Mod16(v.sum as int + Sum(image, Range(j, end)))
    decreases end - j
  {
    hide Mod16;
    if j >= end {
      Small(v.sum);
    } else {
      assert j in Range(j, end);
      ModSum(v.sum as int + image[j], Sum(image, Range(j + 1, end)));
      assert Range(j, end)[1..] == Range(j + 1, end);
      WalkSum(image, j + 1, end, Add(v, image[j]));
    }
  }

  lemma SectSum(image: Image, i: nat, v: Vars)
    requires SectionRead(image, i)
    ensures Sect(image, i, v).sum == Mod16(v.sum as int + Sum(image, Section(image, i)))
  {
    hide Mod16, Sum, Walk, Range;
    var u := Looked(image, i, v);
    Small(v.sum);
    assert u.sum == v.sum;
    if Real(u.at) && Real(u.length) {
      assert Section(image, i) == Range(u.at as int + 1, u.at as int + u.length + 1);
      WalkSum(image, u.at as int + 1, u.at as int + u.length + 1, u);
    } else {
      assert Section(image, i) == [];
      SumNone(image);
    }
  }

  lemma {:induction false} SectsSum(image: Image, i: nat, v: Vars)
    requires AllRead(image) && FIRST_PTR <= i <= FW_PTR
    ensures Sects(image, i, v).sum == Mod16(v.sum as int + Sum(image, Sections(image, i)))
    decreases FW_PTR - i
  {
    hide Mod16, Sect, Section, SectionRead;
    if i == FW_PTR {
      Small(v.sum);
      assert Sum(image, []) == 0;
    } else {
      SectSum(image, i, v);
      SectsSum(image, i + 1, Sect(image, i, v));
      SumAppend(image, Section(image, i), Sections(image, i + 1));
      ModSum(v.sum as int + Sum(image, Section(image, i)), Sum(image, Sections(image, i + 1)));
    }
  }

  lemma SumNone(image: Image)
    ensures Sum(image, []) == 0
  {
  }

  lemma Small(w: Word)
    ensures Mod16(w) == w && Mod16(w as int + 0) == w
  {
  }

  lemma TotalCovers(image: Image)
    requires AllRead(image)
    ensures Total(image) == Mod16(Sum(image, Covered(image)))
  {
    hide Mod16, Head, Sects, Sum, Range, Sections;
    HeadSum(image, 0, ZERO);
    ModSum(Sum(image, Range(0, CHECKSUM)), Sum(image, Sections(image, FIRST_PTR)));
    SectsSum(image, FIRST_PTR, Head(image, 0, ZERO));
    SumAppend(image, Range(0, CHECKSUM), Sections(image, FIRST_PTR));
  }

  /** If all reads succeed, an image is accepted exactly if the covered words and the
      stored checksum add up to 0xBABA. */
  lemma AcceptedIff(image: Image)
    requires AllRead(image)
    ensures Mod16(Total(image) as int + Seen(image, CHECKSUM, 0)) == SUM
            <==> Mod16(Sum(image, Covered(image)) + image[CHECKSUM]) == SUM
  {
    hide Total, Sum, Mod16;
    TotalCovers(image);
    ModSum(Sum(image, Covered(image)), image[CHECKSUM]);
  }

  // ----- when the loops end

  /** The pointer in use at word k: the last one that could be read. */
  ghost function PtrAt(image: Image, k: nat): Word {
    if k < FIRST_PTR then 0 else Seen(image, k, PtrAt(image, k - 1))
  }

  /** The length in use at word k: the last one that could be read. */
  ghost function LengthAt(image: Image, k: nat): Word {
    if k < FIRST_PTR then 0
    else if Real(PtrAt(image, k)) then Seen(image, PtrAt(image, k), LengthAt(image, k - 1))
    else LengthAt(image, k - 1)
  }

  /** The section walked for word k, if any, ends before the last address. */
  ghost predicate WalkEnds(image: Image, k: nat) {
    Real(PtrAt(image, k)) && Real(LengthAt(image, k)) ==> PtrAt(image, k) as int + LengthAt(image, k) < 0xFFFF
  }

  lemma {:induction false} HeadKeeps(image: Image, i: nat, v: Vars)
    ensures Head(image, i, v).at == v.at && Head(image, i, v).length == v.length
    decreases CHECKSUM - i
  {
    if i < CHECKSUM && i in image {
      HeadKeeps(image, i + 1, Add(v, image[i]));
    }
  }

  lemma {:induction false} WalkKeeps(image: Image, j: nat, end: nat, v: Vars)
    ensures Walk(image, j, end, v).at == v.at && Walk(image, j, end, v).length == v.length
    decreases end - j
  {
    if j < end {
      WalkKeeps(image, j + 1, end, Add(v, Seen(image, j, v.word)));
    }
  }

  lemma {:induction false} EndsFrom(image: Image, i: nat, v: Vars)
    requires FIRST_PTR <= i <= FW_PTR && v.at == PtrAt(image, i - 1) && v.length == LengthAt(image, i - 1)
    ensures Ends(image, i, v) <==> forall k | i <= k < FW_PTR :: WalkEnds(image, k)
    decreases FW_PTR - i
  {
    hide Walk, Mod16;
    if i < FW_PTR {
      var u := Looked(image, i, v);
      assert u.at == PtrAt(image, i) && u.length == LengthAt(image, i);
      WalkKeeps(image, u.at as int + 1, u.at as int + u.length + 1, u);
      assert WalkEnds(image, i) <==> (Real(u.at) && Real(u.length) ==> u.at as int + u.length < 0xFFFF);
      EndsFrom(image, i + 1, Sect(image, i, v));
    }
  }

  /** For every image, whatever can be read of it: the loops end exactly if every section
      walked ends before the last address. */
  lemma EndsIff(image: Image)
    ensures Ends(image, FIRST_PTR, Head(image, 0, ZERO)) <==>
              forall k | FIRST_PTR <= k < FW_PTR :: WalkEnds(image, k)
  {
    hide Head, Ends, WalkEnds;
    HeadKeeps(image, 0, ZERO);
    EndsFrom(image, FIRST_PTR, Head(image, 0, ZERO));
  }

  lemma {:induction false} InRange(from: nat, end: nat, a: nat)
    requires from <= a < end
    ensures a in Range(from, end)
    decreases end - from
  {
    if from < a {
      InRange(from + 1, end, a);
    }
  }

  /** If all reads succeed and the last address cannot be read, the loops end: no chip the
      driver knows has as many as 65536 words. */
  lemma AllReadEnds(image: Image)
    requires AllRead(image) && 0xFFFF !in image
    ensures Ends(image, FIRST_PTR, Head(image, 0, ZERO))
  {
    hide Ends, Head;
    EndsIff(image);
    forall k | FIRST_PTR <= k < FW_PTR
      ensures WalkEnds(image, k)
    {
      assert SectionRead(image, k);
      var p, length := PtrAt(image, k), LengthAt(image, k);
      assert p == image[k];
      if Real(p) && Real(length) && p as int + length >= 0xFFFF {
        InRange(p as int + 1, p as int + length + 1, 0xFFFF);
      }
    }
  }

  /** A chip of 32768 words whose first pointer leads to a length that goes far beyond it. */
  ghost function Overlong(): Image {
    map a: nat | a < 0x8000 :: OverlongWord(a)
  }

  function OverlongWord(a: nat): Word {
    if a == FIRST_PTR then 0x100 else if a == 0x100 then 0xFF00 else 0
  }

  /** Its checksum is never finished: the reads beyond the chip fail, and the counter wraps
      around. */
  lemma OverlongNeverEnds()
    ensures !Ends(Overlong(), FIRST_PTR, Head(Overlong(), 0, ZERO))
    ensures forall n: nat :: !Passed(0x100, 0xFF00, n)
  {
    var image := Overlong();
    hide Ends, Head;
    EndsIff(image);
    assert FIRST_PTR in image && 0x100 in image;
    assert PtrAt(image, FIRST_PTR) == 0x100 && LengthAt(image, FIRST_PTR) == 0xFF00;
    assert !WalkEnds(image, FIRST_PTR);
    CounterEnds(0x100, 0xFF00);
  }
}
