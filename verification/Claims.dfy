/** Claiming the bytes of fields one by one, as every validator of a layout does. */
module Claims {
  import opened FieldCodec

  predicate Covers(f: IntegerLayout, at: nat) { f.offset <= at < f.offset + f.width }

  /** The bytes some field claims. */
  ghost predicate Claimed(fields: seq<IntegerLayout>, at: nat) { !Outside(0, fields, at) }

  /** Claim a field's bytes one by one; refuse at the first one already taken. */
  method Claim(occupied: set<nat>, f: IntegerLayout) returns (ok: bool, after: set<nat>)
    ensures ok <==> forall at: nat :: Covers(f, at) ==> at !in occupied
    ensures ok ==> forall at: nat :: at in after <==> at in occupied || Covers(f, at)
  {
    after := occupied;
    for at := f.offset to f.offset + f.width
      invariant forall x: nat :: f.offset <= x < at ==> x !in occupied
      invariant forall x: nat :: x in after <==> x in occupied || f.offset <= x < at
    {
      if at in after {
        return false, after;
      }
      after := after + {at};
    }
    ok := true;
  }

  /** Claiming field after field succeeds exactly when no two overlap. */
  method ClaimAll(fields: seq<IntegerLayout>) returns (ok: bool)
    requires forall i :: 0 <= i < |fields| ==> fields[i].width >= 1 && fields[i].offset + fields[i].width <= MAX_U32
    ensures ok == RangesDisjoint(Spans(fields))
  {
    hide RangesDisjoint, Claimed;
    var occupied: set<nat> := {};
    NothingClaimed(fields);
    for i := 0 to |fields|
      invariant RangesDisjoint(Spans(fields[..i]))
      invariant forall at: nat :: at in occupied <==> Claimed(fields[..i], at)
    {
      var free, after := Claim(occupied, fields[i]);
      OneMoreField(fields, i);
      if !free {
        PrefixOverlaps(fields, i + 1);
        return false;
      }
      forall at: nat
        ensures at in after <==> Claimed(fields[..i + 1], at)
      {
        assert at in after <==> at in occupied || Covers(fields[i], at);
      }
      occupied := after;
    }
    assert fields[..|fields|] == fields;
    ok := true;
  }

  lemma NothingClaimed(fields: seq<IntegerLayout>)
    ensures RangesDisjoint(Spans(fields[..0]))
    ensures forall at: nat :: !Claimed(fields[..0], at)
  {
  }

  lemma OneMoreField(fields: seq<IntegerLayout>, i: nat)
    requires i < |fields|
    requires forall k :: 0 <= k < |fields| ==> fields[k].width >= 1 && fields[k].offset + fields[k].width <= MAX_U32
    requires RangesDisjoint(Spans(fields[..i]))
    ensures forall at: nat :: Claimed(fields[..i + 1], at)
                              <==> Claimed(fields[..i], at) || Covers(fields[i], at)
    ensures RangesDisjoint(Spans(fields[..i + 1]))
            <==> forall at: nat :: Covers(fields[i], at) ==> !Claimed(fields[..i], at)
  {
    hide RangesDisjoint;
    ClaimedByOneMore(fields, i);
    DisjointFromOneMore(fields, i);
  }

  lemma ClaimedByOneMore(fields: seq<IntegerLayout>, i: nat)
    requires i < |fields|
    ensures forall at: nat :: Claimed(fields[..i + 1], at)
                              <==> Claimed(fields[..i], at) || Covers(fields[i], at)
  {
    forall at: nat
      ensures Claimed(fields[..i + 1], at)
              <==> Claimed(fields[..i], at) || Covers(fields[i], at)
    {
      assert fields[..i + 1][i] == fields[i];
      assert forall k :: 0 <= k < i ==> fields[..i + 1][k] == fields[..i][k];
    }
  }

  lemma DisjointFromOneMore(fields: seq<IntegerLayout>, i: nat)
    requires i < |fields|
    requires forall k :: 0 <= k < |fields| ==> fields[k].width >= 1 && fields[k].offset + fields[k].width <= MAX_U32
    requires RangesDisjoint(Spans(fields[..i]))
    ensures RangesDisjoint(Spans(fields[..i + 1]))
            <==> forall at: nat :: Covers(fields[i], at) ==> !Claimed(fields[..i], at)
  {
    var before, after := Spans(fields[..i]), Spans(fields[..i + 1]);
    assert after == before + [SpanOf(fields[i])];
    if RangesDisjoint(after) {
      forall at: nat | Covers(fields[i], at)
        ensures !Claimed(fields[..i], at)
      {
        forall k | 0 <= k < |fields[..i]|
          ensures !(0 + fields[..i][k].offset <= at < 0 + fields[..i][k].offset + fields[..i][k].width)
        {
          assert Apart(after[k], after[i]);
        }
      }
    } else {
      var k :| 0 <= k < i && !Apart(after[k], after[i]);
      var at := if before[k].start > fields[i].offset then before[k].start else fields[i].offset;
      assert fields[..i][k] == fields[k];
      assert Claimed(fields[..i], at);
    }
  }

  lemma PrefixOverlaps(fields: seq<IntegerLayout>, n: nat)
    requires n <= |fields| && !RangesDisjoint(Spans(fields[..n]))
    ensures !RangesDisjoint(Spans(fields))
  {
    var part, whole := Spans(fields[..n]), Spans(fields);
    assert forall i :: 0 <= i < n ==> part[i] == whole[i];
  }

  // ----- What disjoint means -----

  /** No byte belongs to two fields. */
  ghost predicate NoByteTwice(fields: seq<IntegerLayout>) {
    forall i, j, at: nat :: 0 <= i < j < |fields| ==> !(Covers(fields[i], at) && Covers(fields[j], at))
  }

  lemma DisjointIff(fields: seq<IntegerLayout>)
    requires forall i :: 0 <= i < |fields| ==> fields[i].width >= 1 && fields[i].offset + fields[i].width <= 0xFFFF_FFFF
    ensures RangesDisjoint(Spans(fields)) <==> NoByteTwice(fields)
  {
    var spans := Spans(fields);
    if NoByteTwice(fields) {
      forall i, j | 0 <= i < j < |spans|
        ensures Apart(spans[i], spans[j])
      {
        var at := if fields[i].offset < fields[j].offset then fields[j].offset else fields[i].offset;
        assert !(Covers(fields[i], at) && Covers(fields[j], at));
      }
    }
    if RangesDisjoint(spans) {
      forall i, j, at: nat | 0 <= i < j < |fields|
        ensures !(Covers(fields[i], at) && Covers(fields[j], at))
      {
        assert Apart(spans[i], spans[j]);
      }
    }
  }
}
