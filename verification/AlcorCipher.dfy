/** The stream cipher of the flash database, aliasing swap included, and decoding a database with it. */
module AlcorCipher {
  import opened Wrappers

  type Cell = bv8

  const STATE_SIZE: nat := 256

  function Index(b: Cell): (i: nat)
    ensures i < STATE_SIZE
  {
    b as nat
  }

  /** A counter truncated to a byte: counting wraps around. */
  function CellOf(i: nat): Cell { if i == 0 then 0 else Following(CellOf(i - 1)) }

  function Following(b: Cell): Cell { b + 1 }

  function Xor(a: Cell, b: Cell): Cell { a ^ b }

  function Plus(a: Cell, b: Cell): Cell { a + b }

  function Not(a: Cell): Cell { !a }

  lemma XorTwice(a: Cell, b: Cell)
    ensures Xor(Xor(a, b), b) == a
  {
  }

  lemma XorSwapSteps(a: Cell, b: Cell)
    ensures Xor(Xor(a, b), b) == a && Xor(a, Xor(a, b)) == b
    ensures Xor(a, a) == 0 && Xor(0, 0) == 0
  {
  }

  // ----- Swapping by exclusive or -----

  /** The swap exchanges two different cells, but a cell swapped with itself becomes zero. */
  function XorSwapped(s: seq<Cell>, left: nat, right: nat): (r: seq<Cell>)
    requires left < |s| && right < |s|
    ensures |r| == |s|
  {
    if left == right then s[left := 0] else s[left := s[right]][right := s[left]]
  }

  method XorSwap(s: array<Cell>, left: nat, right: nat)
    requires left < s.Length && right < s.Length
    modifies s
    ensures s[..] == XorSwapped(old(s[..]), left, right)
  {
    hide Xor;
    XorSwapSteps(s[left], s[right]);
    XorSwapSteps(s[right], s[left]);
    XorCommutes(s[left], s[right]);
    s[left] := Xor(s[left], s[right]);
    s[right] := Xor(s[left], s[right]);
    s[left] := Xor(s[right], s[left]);
  }

  lemma XorCommutes(a: Cell, b: Cell)
    ensures Xor(a, b) == Xor(b, a)
  {
  }

  /** Every non-zero byte stands in one cell only. */
  predicate NonZeroUnique(s: seq<Cell>) {
    forall i, j :: 0 <= i < j < |s| && s[i] == s[j] ==> s[i] == 0
  }

  lemma SwapKeepsUnique(s: seq<Cell>, left: nat, right: nat)
    requires left < |s| && right < |s| && NonZeroUnique(s)
    ensures NonZeroUnique(XorSwapped(s, left, right))
  {
  }

  // ----- The key schedule -----

  function Identity(n: nat): (s: seq<Cell>)
    ensures |s| == n
  {
    seq(n, i requires 0 <= i < n => CellOf(i))
  }

  /** The state and the accumulator after `n` rounds of the key schedule. */
  datatype Schedule = Schedule(state: seq<Cell>, accumulator: Cell)

  function Scheduled(key: seq<Cell>, n: nat): (s: Schedule)
    requires |key| > 0 && n <= STATE_SIZE
    ensures |s.state| == STATE_SIZE
  {
    if n == 0 then Schedule(Identity(STATE_SIZE), 0)
    else
      var before := Scheduled(key, n - 1);
      var accumulator := Plus(Plus(before.accumulator, before.state[n - 1]), key[(n - 1) % |key|]);
      Schedule(XorSwapped(before.state, n - 1, Index(accumulator)), accumulator)
  }

  lemma IdentityIsUnique()
    ensures NonZeroUnique(Identity(STATE_SIZE))
  {
    forall i, j | 0 <= i < j < STATE_SIZE
      ensures Identity(STATE_SIZE)[i] != Identity(STATE_SIZE)[j]
    {
      CellsDiffer(i, j);
    }
  }

  lemma FollowingCounts(b: Cell)
    requires Index(b) < 255
    ensures Index(Following(b)) == Index(b) + 1
  {
    LargestCell();
  }

  lemma LargestCell()
    ensures Index(255) == 255
  {
  }

  lemma {:induction false} CellCounts(i: nat)
    requires i < STATE_SIZE
    ensures Index(CellOf(i)) == i
  {
    hide Following, Index;
    if i == 0 {
      ZeroCounts();
    } else {
      CellCounts(i - 1);
      FollowingCounts(CellOf(i - 1));
    }
  }

  lemma ZeroCounts()
    ensures Index(0) == 0
  {
  }

  lemma CellsDiffer(i: nat, j: nat)
    requires i < STATE_SIZE && j < STATE_SIZE && i != j
    ensures CellOf(i) != CellOf(j)
  {
    hide CellOf, Index;
    CellCounts(i);
    CellCounts(j);
  }

  /** Throughout the key schedule no non-zero byte is ever duplicated. */
  lemma {:induction false} ScheduleKeepsUnique(key: seq<Cell>, n: nat)
    requires |key| > 0 && n <= STATE_SIZE
    ensures NonZeroUnique(Scheduled(key, n).state)
  {
    hide XorSwapped, Identity, NonZeroUnique, Plus;
    if n == 0 {
      IdentityIsUnique();
    } else {
      ScheduleKeepsUnique(key, n - 1);
      var before := Scheduled(key, n - 1);
      var accumulator := Plus(Plus(before.accumulator, before.state[n - 1]), key[(n - 1) % |key|]);
      SwapKeepsUnique(before.state, n - 1, Index(accumulator));
    }
  }

  // ----- The stream -----

  datatype Stream = Stream(state: seq<Cell>, left: Cell, right: Cell) {
    predicate Valid() { |state| == STATE_SIZE }

    function Next(): (s: Stream)
      requires Valid()
      ensures s.Valid()
    {
      var l := Plus(left, 1);
      var r := Plus(right, state[Index(l)]);
      Stream(XorSwapped(state, Index(l), Index(r)), l, r)
    }

    function Output(): Cell
      requires Valid()
    {
      state[Index(Plus(state[Index(left)], state[Index(right)]))]
    }
  }

  function StreamAfter(key: seq<Cell>, n: nat): (s: Stream)
    requires |key| > 0
    ensures s.Valid()
  {
    if n == 0 then Stream(Scheduled(key, STATE_SIZE).state, 0, 0) else StreamAfter(key, n - 1).Next()
  }

  /** Key stream byte `i` depends on the key alone. */
  function KeyByte(key: seq<Cell>, i: nat): Cell
    requires |key| > 0
  {
    StreamAfter(key, i + 1).Output()
  }

  /** No non-zero state byte is ever duplicated while the stream runs. */
  lemma {:induction false} StreamKeepsUnique(key: seq<Cell>, n: nat)
    requires |key| > 0
    ensures NonZeroUnique(StreamAfter(key, n).state)
  {
    hide XorSwapped, NonZeroUnique, Plus, Scheduled;
    if n == 0 {
      ScheduleKeepsUnique(key, STATE_SIZE);
    } else {
      StreamKeepsUnique(key, n - 1);
      var c := StreamAfter(key, n - 1);
      var l := Plus(c.left, 1);
      SwapKeepsUnique(c.state, Index(l), Index(Plus(c.right, c.state[Index(l)])));
    }
  }

  function Cipher(input: seq<Cell>, key: seq<Cell>): Result<seq<Cell>> {
    if |key| == 0 || |key| > 256 then Err(Invalid)
    else Ok(Masked(input, key))
  }

  function Masked(input: seq<Cell>, key: seq<Cell>): (s: seq<Cell>)
    requires |key| > 0
    ensures |s| == |input|
    ensures forall i :: 0 <= i < |s| ==> s[i] == Xor(input[i], KeyByte(key, i))
  {
    seq(|input|, i requires 0 <= i < |input| => Xor(input[i], KeyByte(key, i)))
  }

  method StreamCipher(input: seq<Cell>, key: seq<Cell>) returns (r: Result<seq<Cell>>)
    ensures r == Cipher(input, key)
  {
    hide XorSwapped, Plus, Xor, Identity, CellOf;
    if |key| == 0 || |key| > 256 {
      return Err(Invalid);
    }
    var state := new Cell[STATE_SIZE](i => CellOf(i));
    assert state[..] == Identity(STATE_SIZE) by {
      IdentityCells(state[..]);
    }
    var accumulator: Cell := 0;
    for index := 0 to STATE_SIZE
      invariant Schedule(state[..], accumulator) == Scheduled(key, index)
    {
      accumulator := Plus(Plus(accumulator, state[index]), key[index % |key|]);
      XorSwap(state, index, Index(accumulator));
    }
    var left: Cell, right: Cell := 0, 0;
    var output: seq<Cell> := [];
    for i := 0 to |input|
      invariant |output| == i
      invariant Stream(state[..], left, right) == StreamAfter(key, i)
      invariant forall k :: 0 <= k < i ==> output[k] == Xor(input[k], KeyByte(key, k))
    {
      left := Plus(left, 1);
      right := Plus(right, state[Index(left)]);
      XorSwap(state, Index(left), Index(right));
      var at := Plus(state[Index(left)], state[Index(right)]);
      assert Stream(state[..], left, right) == StreamAfter(key, i + 1);
      output := output + [Xor(input[i], state[Index(at)])];
    }
    assert output == Masked(input, key);
    return Ok(output);
  }

  lemma IdentityCells(s: seq<Cell>)
    requires |s| == STATE_SIZE && forall i :: 0 <= i < |s| ==> s[i] == CellOf(i)
    ensures s == Identity(STATE_SIZE)
  {
  }

  /** Deciphering what was enciphered with the same key gives the input back. */
  lemma CipherTwiceIsIdentity(input: seq<Cell>, key: seq<Cell>)
    requires 0 < |key| <= 256
    ensures Cipher(Cipher(input, key).value, key) == Ok(input)
  {
    hide Xor, KeyByte;
    var once := Masked(input, key);
    var twice := Masked(once, key);
    forall i | 0 <= i < |input|
      ensures twice[i] == input[i]
    {
      XorTwice(input[i], KeyByte(key, i));
    }
    assert twice == input;
  }

  /** The cipher works byte by byte: the output on a prefix is the prefix of the output. */
  lemma CipherOfPrefix(input: seq<Cell>, key: seq<Cell>, n: nat)
    requires 0 < |key| <= 256 && n <= |input|
    ensures Cipher(input[..n], key) == Ok(Cipher(input, key).value[..n])
  {
    hide Xor, KeyByte;
    assert Masked(input[..n], key) == Masked(input, key)[..n];
  }

  // ----- The cipher in plain numbers -----

  lemma SameIndex(a: Cell, b: Cell)
    requires Index(a) == Index(b)
    ensures a == b
  {
  }

  lemma FollowingWraps(b: Cell)
    ensures Index(Following(b)) == (Index(b) + 1) % 256
  {
    hide Following, Index;
    if Index(b) < 255 {
      FollowingCounts(b);
    } else {
      LargestCell();
      SameIndex(b, 255);
      LargestWraps();
      ZeroCounts();
    }
  }

  lemma LargestWraps()
    ensures Following(255) == 0
  {
  }

  lemma PlusFollowing(a: Cell, b: Cell)
    ensures Plus(a, Following(b)) == Following(Plus(a, b))
  {
  }

  lemma PlusZero(a: Cell)
    ensures Plus(a, 0) == a
  {
  }

  lemma {:induction false} PlusCounted(a: Cell, i: nat)
    ensures Index(Plus(a, CellOf(i))) == (Index(a) + i) % 256
  {
    hide Plus, Following, Index;
    if i == 0 {
      PlusZero(a);
    } else {
      PlusCounted(a, i - 1);
      PlusFollowing(a, CellOf(i - 1));
      FollowingWraps(Plus(a, CellOf(i - 1)));
    }
  }

  /** Byte addition is addition modulo 256. */
  lemma PlusCounts(a: Cell, b: Cell)
    ensures Index(Plus(a, b)) == (Index(a) + Index(b)) % 256
  {
    hide Plus, Index, CellOf;
    CellCounts(Index(b));
    SameIndex(CellOf(Index(b)), b);
    PlusCounted(a, Index(b));
  }

  /** The sum of the cells met and the key bytes used in the first `n` rounds of the schedule. */
  function KeySum(key: seq<Cell>, n: nat): nat
    requires |key| > 0 && n <= STATE_SIZE
  {
    if n == 0 then 0
    else KeySum(key, n - 1) + Index(Scheduled(key, n - 1).state[n - 1]) + Index(key[(n - 1) % |key|])
  }

  lemma SumOnce(a: nat, b: nat)
    ensures (a % 256 + b) % 256 == (a + b) % 256
  {
  }

  /** `after` is `before` with two cells exchanged, or with one zeroed. */
  predicate Exchanged(before: seq<Cell>, after: seq<Cell>, left: nat, right: nat) {
    && |before| == |after| && left < |after| && right < |after|
    && after[left] == (if left == right then 0 else before[right])
    && (left != right ==> after[right] == before[left])
    && forall i :: 0 <= i < |after| && i != left && i != right ==> after[i] == before[i]
  }

  lemma SwapExchanges(s: seq<Cell>, left: nat, right: nat)
    requires left < |s| && right < |s|
    ensures Exchanged(s, XorSwapped(s, left, right), left, right)
  {
  }

  lemma PlusTwice(accumulator: Cell, cell: Cell, add: Cell, sum: nat)
    requires Index(accumulator) == sum % 256
    ensures Index(Plus(Plus(accumulator, cell), add)) == (sum + Index(cell) + Index(add)) % 256
  {
    hide Plus, Index;
    PlusCounts(accumulator, cell);
    PlusCounts(Plus(accumulator, cell), add);
    SumOnce(sum, Index(cell));
    SumOnce(sum + Index(cell), Index(add));
  }

  lemma {:induction false} ScheduleAdds(key: seq<Cell>, n: nat)
    requires |key| > 0 && n <= STATE_SIZE
    ensures Index(Scheduled(key, n).accumulator) == KeySum(key, n) % 256
  {
    hide Plus, Index, CellOf, XorSwapped, Identity;
    if n == 0 {
      ZeroCounts();
    } else {
      ScheduleAdds(key, n - 1);
      var before := Scheduled(key, n - 1);
      PlusTwice(before.accumulator, before.state[n - 1], key[(n - 1) % |key|], KeySum(key, n - 1));
    }
  }

  lemma IdentityCounts()
    ensures forall i :: 0 <= i < 256 ==> Index(Identity(256)[i]) == i
  {
    hide Index, CellOf;
    forall i | 0 <= i < 256
      ensures Index(Identity(256)[i]) == i
    {
      CellCounts(i);
    }
  }

  /**
   * The schedule starts from the identity; round `n` exchanges cell n - 1 with the cell that the sum so far points at,
   * or zeroes it.
   */
  lemma ScheduleSums(key: seq<Cell>, n: nat)
    requires |key| > 0 && n <= 256
    ensures n == 0 ==> forall i :: 0 <= i < 256 ==> Index(Scheduled(key, n).state[i]) == i
    ensures n > 0 ==> Exchanged(Scheduled(key, n - 1).state, Scheduled(key, n).state, n - 1, KeySum(key, n) % 256)
  {
    hide Plus, Index, CellOf, XorSwapped, Identity, KeySum, Exchanged;
    IdentityCounts();
    if n > 0 {
      ScheduleAdds(key, n);
      SwapExchanges(Scheduled(key, n - 1).state, n - 1, Index(Scheduled(key, n).accumulator));
    }
  }

  /** The sum of the cells that the left index has met in the first `n` steps of the stream. */
  function StreamSum(key: seq<Cell>, n: nat): nat
    requires |key| > 0
  {
    if n == 0 then 0 else StreamSum(key, n - 1) + Index(StreamAfter(key, n - 1).state[n % 256])
  }

  lemma OneCounts()
    ensures Index(1) == 1
  {
  }

  lemma {:induction false} StreamAdds(key: seq<Cell>, n: nat)
    requires |key| > 0
    ensures Index(StreamAfter(key, n).left) == n % 256 && Index(StreamAfter(key, n).right) == StreamSum(key, n) % 256
  {
    hide Plus, Index, Scheduled, XorSwapped;
    if n == 0 {
      ZeroCounts();
    } else {
      StreamAdds(key, n - 1);
      var before := StreamAfter(key, n - 1);
      OneCounts();
      PlusCounts(before.left, 1);
      SumOnce(n - 1, 1);
      var cell := before.state[Index(Plus(before.left, 1))];
      PlusCounts(before.right, cell);
      SumOnce(StreamSum(key, n - 1), Index(cell));
    }
  }

  /**
   * Step `n` of the stream exchanges cell n mod 256 with the cell that the sum so far points at, or zeroes it, and
   * gives the cell that the sum of the two points at.
   */
  lemma StreamSums(key: seq<Cell>, n: nat)
    requires |key| > 0
    ensures StreamAfter(key, 0).state == Scheduled(key, 256).state
    ensures var before, after := StreamAfter(key, n).state, StreamAfter(key, n + 1).state;
            var left, right := (n + 1) % 256, StreamSum(key, n + 1) % 256;
            && Exchanged(before, after, left, right)
            && KeyByte(key, n) == after[(Index(after[left]) + Index(after[right])) % 256]
  {
    hide Plus, Index, Scheduled, XorSwapped, StreamSum, Exchanged;
    StreamAdds(key, n + 1);
    var before, now := StreamAfter(key, n), StreamAfter(key, n + 1);
    SwapExchanges(before.state, Index(now.left), Index(now.right));
    PlusCounts(now.state[Index(now.left)], now.state[Index(now.right)]);
  }
}
