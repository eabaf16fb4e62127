/** Rules for the response of a recipe command: their validation, and decoding a response by them. */
module Responses {
  import opened Wrappers
  import opened Bytes
  import opened FieldCodec
  import opened Words
  import opened Claims

  /** A named integer of the response; a mask of zero keeps all bits. */
  datatype ResponseField = ResponseField(name: string, field: IntegerLayout, mask: u64, equals: Option<u64>)

  datatype ResponseRule = ResponseRule(
    minBytes: u32, maxBytes: u32, prefix: seq<byte>, payloadOffset: u32, payloadBytes: u32, fields: seq<ResponseField>)

  function Masked(value: u64, mask: u64): u64 { if mask == 0 then value else Bits(Both, value, mask) }

  function Largest(width: nat): nat { if width >= 8 then 0xFFFF_FFFF_FFFF_FFFF else Pow256(width) - 1 }

  // ----- Validation -----

  predicate FieldValid(f: ResponseField, minBytes: u32) {
    && f.name != "" && WidthValid(f.field.width) && RangeFits(f.field.offset, f.field.width, minBytes)
    && f.mask <= Largest(f.field.width)
    && (f.equals.Some? ==> f.equals.value <= Largest(f.field.width) && Masked(f.equals.value, f.mask) == f.equals.value)
  }

  function FieldLayouts(fields: seq<ResponseField>): (s: seq<IntegerLayout>)
    ensures |s| == |fields|
  {
    seq(|fields|, i requires 0 <= i < |fields| => fields[i].field)
  }

  predicate NamesDiffer(fields: seq<ResponseField>) {
    forall i, j :: 0 <= i < j < |fields| ==> fields[i].name != fields[j].name
  }

  predicate WindowValid(rule: ResponseRule) {
    if rule.payloadBytes == 0 then rule.payloadOffset == 0 else rule.payloadOffset + rule.payloadBytes <= rule.minBytes
  }

  predicate RuleValid(rule: ResponseRule) {
    && rule.minBytes <= rule.maxBytes <= MAX_COMMAND_TRANSFER && |rule.prefix| <= rule.minBytes && WindowValid(rule)
    && (forall i :: 0 <= i < |rule.fields| ==> FieldValid(rule.fields[i], rule.minBytes))
    && NamesDiffer(rule.fields) && RangesDisjoint(Spans(FieldLayouts(rule.fields)))
  }

  method ValidateResponse(rule: ResponseRule) returns (ok: bool)
    ensures ok == RuleValid(rule)
  {
    hide RangesDisjoint, Masked, Largest;
    if !(rule.minBytes <= rule.maxBytes <= MAX_COMMAND_TRANSFER) || |rule.prefix| > rule.minBytes
       || !WindowValid(rule)
    {
      return false;
    }
    var names: set<string> := {};
    for i := 0 to |rule.fields|
      invariant forall k :: 0 <= k < i ==> FieldValid(rule.fields[k], rule.minBytes)
      invariant forall k :: 0 <= k < i ==> rule.fields[k].name in names
      invariant forall name :: name in names ==> exists k :: 0 <= k < i && rule.fields[k].name == name
      invariant NamesDiffer(rule.fields[..i])
    {
      var f := rule.fields[i];
      if !FieldValid(f, rule.minBytes) || f.name in names {
        return false;
      }
      names := names + {f.name};
    }
    assert rule.fields[..|rule.fields|] == rule.fields;
    ok := ClaimAll(FieldLayouts(rule.fields));
  }

  // ----- Decoding -----

  /** The value of a field; the byte order keeps it within eight bytes. */
  function ValueOf(f: ResponseField, data: seq<byte>): Result<u64>
    requires f.field.width <= 8
  {
    var raw :- GetInteger(data, f.field.offset, f.field.width, f.field.endian);
    if raw > 0xFFFF_FFFF_FFFF_FFFF then Err(Invalid) else Ok(Masked(raw, f.mask))
  }

  predicate Expected(f: ResponseField, value: u64) { f.equals.None? || f.equals.value == value }

  predicate FieldsFit(fields: seq<ResponseField>) {
    forall i :: 0 <= i < |fields| ==> fields[i].field.width <= 8
  }

  /** The values read by the first `n` fields, or the first failure. */
  function Values(fields: seq<ResponseField>, data: seq<byte>, n: nat): Result<map<string, u64>>
    requires n <= |fields| && FieldsFit(fields)
  {
    if n == 0 then Ok(map[])
    else
      var values :- Values(fields, data, n - 1);
      var value :- ValueOf(fields[n - 1], data);
      if !Expected(fields[n - 1], value) then Err(Invalid) else Ok(values[fields[n - 1].name := value])
  }

  function Decoded(rule: ResponseRule, data: seq<byte>): Result<map<string, u64>>
    requires FieldsFit(rule.fields)
  {
    if !(rule.minBytes <= |data| <= rule.maxBytes) then Err(Invalid)
    else if !(rule.prefix <= data) then Err(Invalid)
    else Values(rule.fields, data, |rule.fields|)
  }

  method DecodeResponse(rule: ResponseRule, data: seq<byte>) returns (r: Result<map<string, u64>>)
    requires FieldsFit(rule.fields)
    ensures r == Decoded(rule, data)
  {
    hide ValueOf;
    if !(rule.minBytes <= |data| <= rule.maxBytes) || !(rule.prefix <= data) {
      return Err(Invalid);
    }
    var values: map<string, u64> := map[];
    for i := 0 to |rule.fields|
      invariant Values(rule.fields, data, i) == Ok(values)
    {
      var value := ValueOf(rule.fields[i], data);
      if value.Err? || !Expected(rule.fields[i], value.value) {
        FirstFailureStays(rule.fields, data, i);
        return Err(Invalid);
      }
      values := values[rule.fields[i].name := value.value];
    }
    return Ok(values);
  }

  lemma ValueErrors(f: ResponseField, data: seq<byte>)
    requires f.field.width <= 8 && ValueOf(f, data).Err?
    ensures ValueOf(f, data) == Err(Invalid)
  {
  }

  lemma FirstFailureStays(fields: seq<ResponseField>, data: seq<byte>, i: nat)
    requires i < |fields| && FieldsFit(fields) && Values(fields, data, i).Ok?
    requires ValueOf(fields[i], data).Err? || !Expected(fields[i], ValueOf(fields[i], data).value)
    ensures Values(fields, data, |fields|) == Err(Invalid)
  {
    hide ValueOf;
    if ValueOf(fields[i], data).Err? {
      ValueErrors(fields[i], data);
    }
    assert Values(fields, data, i + 1) == Err(Invalid);
    FailureStays(fields, data, i + 1, |fields|);
  }

  lemma {:induction false} FailureStays(fields: seq<ResponseField>, data: seq<byte>, i: nat, n: nat)
    requires i <= n <= |fields| && FieldsFit(fields) && Values(fields, data, i) == Err(Invalid)
    ensures Values(fields, data, n) == Err(Invalid)
  {
    hide ValueOf;
    if i < n {
      FailureStays(fields, data, i, n - 1);
    }
  }

  /** The payload window, or the whole response when there is none. */
  function ResponsePayload(rule: ResponseRule, data: seq<byte>): Result<seq<byte>> {
    if rule.payloadBytes == 0 then Ok(data)
    else if rule.payloadOffset + rule.payloadBytes > |data| then Err(Invalid)
    else Ok(data[rule.payloadOffset..rule.payloadOffset + rule.payloadBytes])
  }

  // ----- What validation is for -----

  /** A response a rule asks for: length, signature and every expected value. */
  predicate Meets(rule: ResponseRule, data: seq<byte>)
    requires FieldsFit(rule.fields)
  {
    && rule.minBytes <= |data| <= rule.maxBytes && rule.prefix <= data
    && forall i :: 0 <= i < |rule.fields| ==>
                     ValueOf(rule.fields[i], data).Ok? && Expected(rule.fields[i], ValueOf(rule.fields[i], data).value)
  }

  /** Exactly the fields below `n`, by name. */
  predicate Reads(values: map<string, u64>, fields: seq<ResponseField>, data: seq<byte>, n: nat)
    requires n <= |fields| && FieldsFit(fields)
  {
    && (forall i :: 0 <= i < n ==> fields[i].name in values && ValueOf(fields[i], data) == Ok(values[fields[i].name]))
    && forall name :: name in values ==> exists i :: 0 <= i < n && fields[i].name == name
  }

  lemma ValueIsThere(f: ResponseField, minBytes: u32, data: seq<byte>)
    requires FieldValid(f, minBytes) && |data| >= minBytes
    ensures ValueOf(f, data).Ok?
  {
    hide Masked;
    var s := data[f.field.offset..f.field.offset + f.field.width];
    EncodeDecodes(s, f.field.endian);
    assert Pow256(4) == 0x1_0000_0000;
    assert Pow256(8) == 256 * (256 * (256 * (256 * Pow256(4))));
  }

  lemma ValidFieldsFit(rule: ResponseRule)
    requires RuleValid(rule)
    ensures FieldsFit(rule.fields)
  {
    forall i | 0 <= i < |rule.fields|
      ensures rule.fields[i].field.width <= 8
    {
      assert FieldValid(rule.fields[i], rule.minBytes);
    }
  }

  lemma NothingRead(fields: seq<ResponseField>, data: seq<byte>)
    requires FieldsFit(fields)
    ensures Reads(map[], fields, data, 0)
  {
  }

  lemma OneMoreRead(values: map<string, u64>, fields: seq<ResponseField>, data: seq<byte>, n: nat, value: u64)
    requires n < |fields| && FieldsFit(fields) && NamesDiffer(fields)
    requires Reads(values, fields, data, n) && ValueOf(fields[n], data) == Ok(value)
    ensures Reads(values[fields[n].name := value], fields, data, n + 1)
  {
    hide ValueOf;
  }

  lemma {:induction false} ValuesAreRead(rule: ResponseRule, data: seq<byte>, n: nat)
    requires RuleValid(rule) && FieldsFit(rule.fields) && n <= |rule.fields| && |data| >= rule.minBytes
    ensures Values(rule.fields, data, n).Ok? <==>
            forall i :: 0 <= i < n ==> ValueOf(rule.fields[i], data).Ok?
                                       && Expected(rule.fields[i], ValueOf(rule.fields[i], data).value)
    ensures Values(rule.fields, data, n).Ok? ==> Reads(Values(rule.fields, data, n).value, rule.fields, data, n)
  {
    hide ValueOf, FieldValid, RangesDisjoint, Expected, WindowValid, NamesDiffer, Reads;
    if n == 0 {
      NothingRead(rule.fields, data);
    } else {
      ValuesAreRead(rule, data, n - 1);
      if Values(rule.fields, data, n).Ok? {
        var value := ValueOf(rule.fields[n - 1], data).value;
        OneMoreRead(Values(rule.fields, data, n - 1).value, rule.fields, data, n - 1, value);
      }
    }
  }

  /**
   * For a valid rule and any response of an allowed length, no field and no payload window lies outside the response:
   * decoding fails only for a wrong signature or an unexpected value, and otherwise reads every field under its own
   * name.
   */
  lemma ValidRuleDecodes(rule: ResponseRule, data: seq<byte>)
    requires RuleValid(rule)
    ensures FieldsFit(rule.fields)
    ensures Decoded(rule, data).Ok? <==> Meets(rule, data)
    ensures Decoded(rule, data).Ok? ==> Reads(Decoded(rule, data).value, rule.fields, data, |rule.fields|)
    ensures |data| >= rule.minBytes ==>
              && (forall i :: 0 <= i < |rule.fields| ==> ValueOf(rule.fields[i], data).Ok?)
              && ResponsePayload(rule, data).Ok?
              && |ResponsePayload(rule, data).value| == (if rule.payloadBytes == 0 then |data| else rule.payloadBytes)
              && forall k :: 0 <= k < |ResponsePayload(rule, data).value| ==>
                               ResponsePayload(rule, data).value[k] == data[rule.payloadOffset + k]
  {
    hide ValueOf, Values, Reads, RangesDisjoint, NamesDiffer, Expected;
    ValidFieldsFit(rule);
    if |data| >= rule.minBytes {
      ValuesAreRead(rule, data, |rule.fields|);
      forall i | 0 <= i < |rule.fields|
        ensures ValueOf(rule.fields[i], data).Ok?
      {
        ValueIsThere(rule.fields[i], rule.minBytes, data);
      }
    }
  }

  // ----- Valid rules and met rules, bit by bit -----

  function Greatest(width: nat): nat {
    match width
    case 1 => 0xFF
    case 2 => 0xFFFF
    case 4 => 0xFFFF_FFFF
    case _ => 0xFFFF_FFFF_FFFF_FFFF
  }

  /** Bits the mask lets through; a mask of zero lets all through. */
  predicate Seen(mask: u64, i: nat) { mask == 0 || BitOf(mask, i) }

  lemma MaskedBits(value: u64, mask: u64, i: nat)
    ensures BitOf(Masked(value, mask), i) <==> BitOf(value, i) && Seen(mask, i)
  {
    CombineBits(Both, value, mask, i);
  }

  /** A masked value is an expected one exactly when they agree on every bit seen and nothing unseen is expected. */
  lemma MaskedIs(value: u64, mask: u64, expected: u64)
    ensures Masked(value, mask) == expected
            <==> forall i: nat :: BitOf(expected, i) <==> BitOf(value, i) && Seen(mask, i)
  {
    hide Masked, Seen, BitOf;
    if Masked(value, mask) == expected {
      forall i: nat
        ensures BitOf(expected, i) <==> BitOf(value, i) && Seen(mask, i)
      {
        MaskedBits(value, mask, i);
      }
    }
    if forall i: nat :: BitOf(expected, i) <==> BitOf(value, i) && Seen(mask, i) {
      forall i: nat
        ensures BitOf(Masked(value, mask), i) <==> BitOf(expected, i)
      {
        MaskedBits(value, mask, i);
      }
      SameBits(Masked(value, mask), expected);
    }
  }

  /** A named field inside every allowed response; it expects no bit that it does not see. */
  ghost predicate RightField(f: ResponseField, minBytes: u32) {
    && |f.name| > 0
    && (f.field.width == 1 || f.field.width == 2 || f.field.width == 4 || f.field.width == 8)
    && f.field.offset + f.field.width <= minBytes && f.mask <= Greatest(f.field.width)
    && (f.equals.Some? ==>
          && f.equals.value <= Greatest(f.field.width)
          && forall i: nat :: BitOf(f.equals.value, i) ==> Seen(f.mask, i))
  }

  lemma LargestIs(width: nat)
    requires WidthValid(width)
    ensures Largest(width) == Greatest(width)
  {
    assert Pow256(1) == 0x100 && Pow256(2) == 0x1_0000;
    assert Pow256(4) == 0x1_0000_0000;
  }

  lemma FieldIff(f: ResponseField, minBytes: u32)
    ensures FieldValid(f, minBytes) <==> RightField(f, minBytes)
  {
    hide Largest, Greatest, Masked, Seen, BitOf;
    if WidthValid(f.field.width) {
      LargestIs(f.field.width);
    }
    if f.equals.Some? {
      MaskedIs(f.equals.value, f.mask, f.equals.value);
    }
  }

  /** The rules that validation accepts. */
  lemma RuleIff(rule: ResponseRule)
    ensures RuleValid(rule) <==>
            && rule.minBytes <= rule.maxBytes <= 16_777_216 && |rule.prefix| <= rule.minBytes
            && (rule.payloadBytes == 0 ==> rule.payloadOffset == 0)
            && (rule.payloadBytes > 0 ==> rule.payloadOffset + rule.payloadBytes <= rule.minBytes)
            && (forall i :: 0 <= i < |rule.fields| ==> RightField(rule.fields[i], rule.minBytes))
            && (forall i, j :: 0 <= i < j < |rule.fields| ==> rule.fields[i].name != rule.fields[j].name)
            && NoByteTwice(FieldLayouts(rule.fields))
  {
    hide FieldValid, RightField, RangesDisjoint, NoByteTwice;
    forall i | 0 <= i < |rule.fields|
      ensures FieldValid(rule.fields[i], rule.minBytes) <==> RightField(rule.fields[i], rule.minBytes)
    {
      FieldIff(rule.fields[i], rule.minBytes);
    }
    if rule.minBytes <= 16_777_216 && forall i :: 0 <= i < |rule.fields| ==> RightField(rule.fields[i], rule.minBytes) {
      RightFieldsLie(rule);
      DisjointIff(FieldLayouts(rule.fields));
    }
  }

  lemma RightFieldsLie(rule: ResponseRule)
    requires rule.minBytes <= 16_777_216
    requires forall i :: 0 <= i < |rule.fields| ==> RightField(rule.fields[i], rule.minBytes)
    ensures forall i :: 0 <= i < |rule.fields| ==>
                          var f := FieldLayouts(rule.fields)[i];
                          f.width >= 1 && f.offset + f.width <= 0xFFFF_FFFF
  {
    hide Greatest, Seen;
  }

  /** The field reads an expected value off the response, bit by bit. */
  ghost predicate Agrees(f: ResponseField, data: seq<byte>)
    requires f.field.width <= 8
  {
    var raw := GetInteger(data, f.field.offset, f.field.width, f.field.endian);
    raw.Ok? && (f.equals.Some? ==>
                  forall i: nat :: BitOf(f.equals.value, i) <==> BitOf(raw.value, i) && Seen(f.mask, i))
  }

  lemma AgreesIff(f: ResponseField, minBytes: u32, data: seq<byte>)
    requires FieldValid(f, minBytes) && |data| >= minBytes
    ensures ValueOf(f, data).Ok? && (Expected(f, ValueOf(f, data).value) <==> Agrees(f, data))
  {
    hide Masked, BitOf, Seen, GetInteger;
    ValueIsThere(f, minBytes, data);
    if f.equals.Some? {
      var raw := GetInteger(data, f.field.offset, f.field.width, f.field.endian).value;
      MaskedIs(raw, f.mask, f.equals.value);
    }
  }

  /** The responses that a valid rule decodes. */
  lemma DecodesIff(rule: ResponseRule, data: seq<byte>)
    requires RuleValid(rule)
    ensures FieldsFit(rule.fields)
    ensures Decoded(rule, data).Ok? <==>
            && rule.minBytes <= |data| <= rule.maxBytes
            && (forall i :: 0 <= i < |rule.prefix| ==> data[i] == rule.prefix[i])
            && forall i :: 0 <= i < |rule.fields| ==> Agrees(rule.fields[i], data)
  {
    hide Decoded, Agrees, ValueOf, Expected, FieldValid, RangesDisjoint, NamesDiffer;
    ValidRuleDecodes(rule, data);
    if rule.minBytes <= |data| {
      forall i | 0 <= i < |rule.fields|
        ensures ValueOf(rule.fields[i], data).Ok?
        ensures Expected(rule.fields[i], ValueOf(rule.fields[i], data).value) <==> Agrees(rule.fields[i], data)
      {
        AgreesIff(rule.fields[i], rule.minBytes, data);
      }
      assert rule.prefix <= data <==> forall i :: 0 <= i < |rule.prefix| ==> data[i] == rule.prefix[i];
    }
  }
}
