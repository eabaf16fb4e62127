/** The address-word generator: a cursor walk and its closed form. */
module AlcorAddress {
  import opened Wrappers
  import opened Bytes
  import opened Geometry

  type u16 = x: int | 0 <= x < 0x1_0000

  const MAX_U16: nat := 0xFFFF

  /** The geometry and address inputs the generator uses, under their recovered object names. */
  datatype Inputs = Inputs(
    objectA9: byte, objectAa: u16, objectAe: byte, argument18: byte, object38a: byte, object3e19: byte,
    helperB4: byte, helperB8: byte, object348Bit08: bool, table: seq<u16>)

  /** What is fixed before the walk starts. */
  datatype Shape = Shape(object02: nat, effectiveCe: nat, span: nat, populated: nat, outputWords: nat, start: nat)

  datatype Layout = Layout(object02: nat, effectiveCe: nat, span: nat, populated: nat, words: seq<u16>)

  function Larger(a: nat, b: nat): nat { if a >= b then a else b }

  function GroupSpan(i: Inputs): Result<nat> {
    if i.object3e19 == 1 || i.object3e19 == 2 then
      var product := i.objectAe * i.helperB4 * i.helperB8;
      if product == 0 || product > MAX_U16 then Err(Invalid) else Ok(product)
    else Ok(i.objectAe)
  }

  function ShapeOf(i: Inputs): (r: Result<Shape>)
    ensures r.Ok? ==> r.value.populated <= r.value.outputWords <= 16
    ensures r.Ok? ==> 0 < r.value.effectiveCe <= r.value.span <= MAX_U16 && r.value.start <= MAX_U16
  {
    if i.objectAa == 0 || i.objectAe == 0 || i.objectA9 == 0 then Err(Invalid)
    else
      var object02 := if i.argument18 / 0x80 % 2 == 1 then i.objectA9 else 0x10;
      if object02 > 0x40 then Err(Invalid)
      else if 0x1000 / i.objectAa == 0 then Err(Invalid)
      else
        var stride := 0x1000 / i.objectAa;
        var populated := (object02 + stride - 1) / stride;
        var outputWords := if i.object348Bit08 then 8 else 16;
        if populated > outputWords then Err(Invalid)
        else
          var effectiveCe := if i.object38a == 4 then Larger(i.objectAe / 2, 1) else i.objectAe;
          var span :- GroupSpan(i);
          if span < effectiveCe then Err(Invalid)
          else Ok(Shape(object02, effectiveCe, span, populated, outputWords, if i.objectAe == 1 then 2 else span))
  }

  // ----- What the shape is -----

  /** Address lines wanted: those of the geometry under the top bit of the argument, and else sixteen. */
  function Wanted(i: Inputs): nat { if i.argument18 >= 128 then i.objectA9 else 16 }

  /** Words of `stride` address lines needed to hold the wanted ones, and no word more. */
  predicate JustEnough(words: nat, stride: nat, wanted: nat) {
    words * stride >= wanted && wanted > 0 && words > 0 && (words - 1) * stride < wanted
  }

  lemma RoundingUp(wanted: nat, stride: nat)
    requires wanted > 0 && stride > 0
    ensures JustEnough((wanted + stride - 1) / stride, stride, wanted)
  {
    var words := (wanted + stride - 1) / stride;
    assert wanted + stride - 1 == words * stride + (wanted + stride - 1) % stride;
    if words == 0 {
      assert false;
    }
    Distribute(words, 1, stride);
  }

  lemma MoreIsMore(a: nat, b: nat, m: nat)
    requires a <= b
    ensures a * m <= b * m
  {
  }

  lemma EnoughIff(words: nat, stride: nat, wanted: nat, room: nat)
    requires JustEnough(words, stride, wanted)
    ensures words <= room <==> room * stride >= wanted
  {
    if words <= room {
      MoreIsMore(words, room, stride);
    } else {
      MoreIsMore(room, words - 1, stride);
    }
  }

  lemma StrideIff(lines: u16)
    requires lines > 0
    ensures 0x1000 / lines > 0 <==> lines <= 4096
  {
  }

  lemma TopBit(b: byte)
    ensures b / 0x80 % 2 == 1 <==> b >= 128
  {
  }

  lemma GroupsAreWide(ae: nat, b4: nat, b8: nat)
    requires ae * b4 * b8 > 0
    ensures ae * b4 * b8 >= ae
  {
    AtLeastOnce(b4, ae);
    AtLeastOnce(b8, ae * b4);
  }

  /**
   * The shape exists exactly for a geometry without zeros whose wanted lines, at most 64, fit eight or sixteen words,
   * and whose group span is positive and sixteen bits wide. A span is then never below the effective count of targets.
   */
  lemma ShapeIff(i: Inputs)
    ensures ShapeOf(i).Ok? <==>
            && 1 <= i.objectAa <= 4096 && i.objectAe > 0 && i.objectA9 > 0 && Wanted(i) <= 64
            && (if i.object348Bit08 then 8 else 16) * (4096 / i.objectAa) >= Wanted(i)
            && (i.object3e19 in {1, 2} ==> 0 < i.objectAe * i.helperB4 * i.helperB8 < 65536)
    ensures ShapeOf(i).Ok? ==>
              var s := ShapeOf(i).value;
              && s.object02 == Wanted(i) && JustEnough(s.populated, 4096 / i.objectAa, Wanted(i))
              && s.outputWords == (if i.object348Bit08 then 8 else 16)
              && s.effectiveCe
                 == (if i.object38a != 4 then i.objectAe else if i.objectAe == 1 then 1 else i.objectAe / 2)
              && s.span == (if i.object3e19 in {1, 2} then i.objectAe * i.helperB4 * i.helperB8 else i.objectAe)
              && s.start == (if i.objectAe == 1 then 2 else s.span)
  {
    hide JustEnough;
    TopBit(i.argument18);
    if i.objectAa > 0 && i.objectAe > 0 && i.objectA9 > 0 {
      StrideIff(i.objectAa);
      var stride := 0x1000 / i.objectAa;
      if stride > 0 {
        RoundingUp(Wanted(i), stride);
        EnoughIff((Wanted(i) + stride - 1) / stride, stride, Wanted(i), if i.object348Bit08 then 8 else 16);
        if i.objectAe * i.helperB4 * i.helperB8 > 0 {
          GroupsAreWide(i.objectAe, i.helperB4, i.helperB8);
        }
      }
    }
  }

  // ----- The closed form -----

  /** Group `q` starts one span after the one before it. */
  function GroupStart(start: nat, q: nat, span: nat): nat { start + q * span }

  function WordAt(s: Shape, i: nat): nat
    requires s.effectiveCe > 0
  {
    GroupStart(s.start, i / s.effectiveCe, s.span) + i % s.effectiveCe
  }

  /** The cursor after one word more, as the walk moves it. */
  lemma CursorStep(s: Shape, i: nat)
    requires 0 < s.effectiveCe <= s.span
    ensures WordAt(s, i + 1) == WordAt(s, i) + 1 + (if (i + 1) % s.effectiveCe == 0 then s.span - s.effectiveCe else 0)
    ensures WordAt(s, i) < WordAt(s, i + 1)
  {
    var ce, q, r := s.effectiveCe, i / s.effectiveCe, i % s.effectiveCe;
    assert i == q * ce + r;
    if r + 1 < ce {
      DivModUnique(q, ce, r + 1);
    } else {
      Distribute(q + 1, q, ce);
      DivModUnique(q + 1, ce, 0);
      Distribute(q + 1, q, s.span);
    }
  }

  lemma {:induction false} WordsIncrease(s: Shape, i: nat, j: nat)
    requires 0 < s.effectiveCe <= s.span && i < j
    ensures WordAt(s, i) < WordAt(s, j)
    decreases j
  {
    hide WordAt;
    CursorStep(s, j - 1);
    if i < j - 1 {
      WordsIncrease(s, i, j - 1);
    }
  }

  lemma FirstWord(s: Shape)
    requires s.effectiveCe > 0
    ensures WordAt(s, 0) == s.start
  {
  }

  /** The words of the walk: the closed form for all populated words, zero after them. */
  predicate WalkWords(s: Shape, words: seq<u16>)
    requires 0 < s.effectiveCe <= s.span
  {
    && |words| == s.outputWords
    && forall i :: 0 <= i < |words| ==> words[i] == if i < s.populated then WordAt(s, i) else 0
  }

  /** The walk without a table; it fails exactly when the cursor leaves its sixteen bits. */
  method Walk(s: Shape) returns (r: Result<seq<u16>>)
    requires 0 < s.effectiveCe <= s.span <= MAX_U16 && s.start <= MAX_U16 && s.populated <= s.outputWords
    ensures r.Ok? <==> WordAt(s, s.populated) <= MAX_U16
    ensures r.Ok? ==> WalkWords(s, r.value)
  {
    hide WordAt;
    FirstWord(s);
    var words := new u16[s.outputWords](_ => 0);
    var current := s.start;
    for i := 0 to s.populated
      invariant current == WordAt(s, i) <= MAX_U16
      invariant forall k :: 0 <= k < words.Length ==> words[k] == if k < i then WordAt(s, k) else 0
    {
      words[i] := current;
      CursorStep(s, i);
      if i + 1 < s.populated {
        WordsIncrease(s, i + 1, s.populated);
      }
      if current + 1 > MAX_U16 {
        return Err(Invalid);
      }
      current := current + 1;
      if (i + 1) % s.effectiveCe == 0 {
        if current + (s.span - s.effectiveCe) > MAX_U16 {
          return Err(Invalid);
        }
        current := current + (s.span - s.effectiveCe);
      }
    }
    return Ok(words[..]);
  }

  // ----- The table mode -----

  function Groups(s: Shape): nat
    requires s.effectiveCe > 0
  {
    (s.populated + s.effectiveCe - 1) / s.effectiveCe
  }

  /** Which table word group `q` is based on: one further for every group. */
  function TableIndex(s: Shape, q: nat): nat
    requires s.span > 0
  {
    Quotient(s.start, s.span) + q
  }

  lemma CursorIndexesTable(s: Shape, q: nat)
    requires s.span > 0
    ensures Quotient(GroupStart(s.start, q, s.span), s.span) == TableIndex(s, q)
  {
    var a, b := s.start / s.span, s.start % s.span;
    assert s.start == a * s.span + b;
    Distribute(a + q, a, s.span);
    DivModUnique(a + q, s.span, b);
  }

  /** The words of group `q` that are populated. */
  function GroupSize(s: Shape, q: nat): nat
    requires s.effectiveCe > 0
  {
    if q * s.effectiveCe >= s.populated then 0
    else if s.populated - q * s.effectiveCe < s.effectiveCe then s.populated - q * s.effectiveCe
    else s.effectiveCe
  }

  /** Group `q` has a table word, none of its words overflows, and neither does the cursor after it. */
  predicate GroupFits(s: Shape, table: seq<u16>, q: nat)
    requires s.effectiveCe > 0 && s.span > 0
  {
    && TableIndex(s, q) < |table|
    && table[TableIndex(s, q)] + GroupSize(s, q) - 1 <= MAX_U16
    && GroupStart(s.start, q + 1, s.span) <= MAX_U16
  }

  /** The words of table mode: the group's table word plus the position in the group, zero after the populated words. */
  predicate TableWords(s: Shape, table: seq<u16>, words: seq<u16>)
    requires s.effectiveCe > 0 && s.span > 0
  {
    && |words| == s.outputWords
    && forall i :: 0 <= i < |words| ==> TableWord(s, table, i, words[i])
  }

  predicate TableWord(s: Shape, table: seq<u16>, i: nat, word: u16)
    requires s.effectiveCe > 0 && s.span > 0
  {
    if i < s.populated then
      && TableIndex(s, Quotient(i, s.effectiveCe)) < |table|
      && word == table[TableIndex(s, Quotient(i, s.effectiveCe))] + Remainder(i, s.effectiveCe)
    else word == 0
  }

  lemma GroupsCover(s: Shape, q: nat)
    requires s.effectiveCe > 0
    ensures q < Groups(s) <==> q * s.effectiveCe < s.populated
  {
    var n, ce := s.populated + s.effectiveCe - 1, s.effectiveCe;
    var g := n / ce;
    assert n == g * ce + n % ce;
    if q < g {
      Distribute(g, q, ce);
      AtLeastOnce(g - q, ce);
    } else {
      Distribute(q, g, ce);
      if q > g {
        AtLeastOnce(q - g, ce);
      }
    }
  }

  /** One group of words, counting up from its table word. */
  method FillGroup(words: array<u16>, base: u16, outer: nat, size: nat) returns (ok: bool)
    requires outer + size <= words.Length && size > 0
    modifies words
    ensures ok <==> base + size - 1 <= MAX_U16
    ensures forall k :: 0 <= k < words.Length && !(outer <= k < outer + size) ==> words[k] == old(words[k])
    ensures ok ==> forall k :: outer <= k < outer + size ==> words[k] == base + (k - outer)
  {
    for inner := 0 to size
      invariant base + inner - 1 <= MAX_U16
      invariant forall k :: 0 <= k < words.Length && !(outer <= k < outer + size) ==> words[k] == old(words[k])
      invariant forall k :: outer <= k < outer + inner ==> words[k] == base + (k - outer)
    {
      if base + inner > MAX_U16 {
        return false;
      }
      words[outer + inner] := base + inner;
    }
    ok := true;
  }

  lemma InGroup(i: nat, q: nat, ce: nat)
    requires 0 < ce && q * ce <= i < q * ce + ce
    ensures Quotient(i, ce) == q && Remainder(i, ce) == i - q * ce
  {
    DivModUnique(q, ce, i - q * ce);
  }

  /** The walk with a table; it fails exactly when some group does not fit. */
  method TableWalk(s: Shape, table: seq<u16>) returns (r: Result<seq<u16>>)
    requires 0 < s.effectiveCe <= s.span <= MAX_U16 && s.start <= MAX_U16 && s.populated <= s.outputWords
    ensures r.Ok? <==> forall q :: 0 <= q < Groups(s) ==> GroupFits(s, table, q)
    ensures r.Ok? ==> TableWords(s, table, r.value)
  {
    hide Groups, TableIndex, Quotient, Remainder;
    var words := new u16[s.outputWords](_ => 0);
    var current, outer := s.start, 0;
    ghost var q := 0;
    while outer < s.populated
      invariant outer == q * s.effectiveCe && current == GroupStart(s.start, q, s.span) <= MAX_U16
      invariant forall g :: 0 <= g < q ==> GroupFits(s, table, g)
      invariant forall i :: 0 <= i < words.Length ==>
                              if i < outer then TableWord(s, table, i, words[i]) else words[i] == 0
      decreases s.populated - outer
    {
      GroupsCover(s, q);
      CursorIndexesTable(s, q);
      NextMultiple(q, s.effectiveCe);
      NextMultiple(q, s.span);
      var index := Quotient(current, s.span);
      if index >= |table| {
        assert !GroupFits(s, table, q);
        return Err(Invalid);
      }
      var size := if s.effectiveCe <= s.populated - outer then s.effectiveCe else s.populated - outer;
      assert size == GroupSize(s, q);
      var ok := FillGroup(words, table[index], outer, size);
      if !ok || current + s.span > MAX_U16 {
        assert !GroupFits(s, table, q);
        return Err(Invalid);
      }
      forall i | 0 <= i < words.Length && i < outer + s.effectiveCe
        ensures TableWord(s, table, i, words[i])
      {
        if outer <= i {
          InGroup(i, q, s.effectiveCe);
        }
      }
      outer := outer + s.effectiveCe;
      current := current + s.span;
      q := q + 1;
    }
    GroupsCover(s, q);
    return Ok(words[..]);
  }

  // ----- The whole derivation -----

  method DeriveAddressLayout(i: Inputs) returns (r: Result<Layout>)
    ensures r.Ok? ==> ShapeOf(i).Ok?
    ensures r.Ok? ==> var s := ShapeOf(i).value;
                      && r.value == Layout(s.object02, s.effectiveCe, s.span, s.populated, r.value.words)
                      && if i.object3e19 == 1 then TableWords(s, i.table, r.value.words)
                         else WalkWords(s, r.value.words)
    ensures ShapeOf(i).Ok? ==>
              var s := ShapeOf(i).value;
              (r.Ok? <==> if i.object3e19 == 1 then forall q :: 0 <= q < Groups(s) ==> GroupFits(s, i.table, q)
                          else WordAt(s, s.populated) <= MAX_U16 && i.table == [])
  {
    hide ShapeOf, WordAt, Groups, GroupFits, TableWords, WalkWords;
    var s :- ShapeOf(i);
    var words: seq<u16> := [];
    if i.object3e19 == 1 {
      words :- TableWalk(s, i.table);
    } else {
      words :- Walk(s);
      if i.table != [] {
        return Err(Invalid);
      }
    }
    return Ok(Layout(s.object02, s.effectiveCe, s.span, s.populated, words));
  }

  /** Without a table the populated words strictly increase. */
  lemma WalkIncreases(s: Shape, words: seq<u16>, i: nat, j: nat)
    requires 0 < s.effectiveCe <= s.span && WalkWords(s, words) && s.populated <= s.outputWords
    requires i < j < s.populated
    ensures words[i] < words[j]
  {
    hide WordAt;
    WordsIncrease(s, i, j);
  }
}
