/**
 * What OSCORE does with the option list: the sender splits it into encrypted (class E) and
 * outer (class U) options and puts the OSCORE option among the latter; the receiver sorts the
 * option numbers and merges the two lists back.
 */
module Options {
  import opened Bytes
  import opened OscoreErrors
  import opened Coap

  const URI_HOST: byte := 3
  const URI_PORT: byte := 7
  const OSCORE: byte := 9
  const PROXY_URI: byte := 35
  const PROXY_SCHEME: byte := 39

  /** Every option is encrypted unless it is on this list; unknown options are class E. */
  predicate IsClassE(number: uint16) {
    number != URI_HOST && number != URI_PORT && number != OSCORE && number != PROXY_URI && number != PROXY_SCHEME
  }

  // ----- the sender: splitting -----

  /** The two lists and the predicted number of bytes of the first. */
  datatype Parts = Parts(e: seq<CoapOption>, u: seq<CoapOption>, eLen: uint16) {
    function Join(more: Parts): Parts {
      Parts(e + more.e, u + more.u, U16(eLen + more.eLen))
    }
  }

  /** The extra bytes the sender expects a delta or a length to take. */
  function PredictedExt(v: uint16): (n: nat) {
    if 13 < v < 243 then 1 else if v >= 243 then 2 else 0
  }

  function PredictedLen(o: CoapOption): nat {
    1 + PredictedExt(o.delta) + PredictedExt(|o.value|) + |o.value|
  }

  /**
   * The split from the option with running number `number` on; `eSum` and `uSum` are the
   * 8-bit sums of the deltas given out so far in each list.
   */
  function Split(os: seq<CoapOption>, number: uint16, eSum: byte, uSum: byte): Parts {
    if os == [] then Parts([], [], 0)
    else
      var o, nr := os[0], U16(number + os[0].delta);
      if IsClassE(nr) then
        var delta := U16(nr - eSum);
        Parts([CoapOption(delta, o.value, U8(nr))], [], U16(PredictedLen(o)))
        .Join(Split(os[1..], nr, U8(eSum + delta), uSum))
      else
        var delta := U16(nr - uSum);
        Parts([], [CoapOption(delta, o.value, U8(nr))], 0)
        .Join(Split(os[1..], nr, eSum, U8(uSum + delta)))
  }

  /** Counting on from a sum by the difference to a number reaches the number. */
  lemma SumReaches(n: uint16, sum: byte)
    ensures U8(sum + U16(n - sum)) == U8(n)
    ensures U16(sum + U16(n - sum)) == n
    ensures n >= sum ==> U16(n - sum) == n - sum
  {
    if n < sum {
      var s: int, m: int := sum, n;
      assert U16(m - s) == m - s + 0x1_0000;
      assert s + U16(m - s) == m + 0x1_0000;
    }
  }

  lemma SplitStep(os: seq<CoapOption>, number: uint16, eSum: byte, uSum: byte)
    requires os != []
    ensures var o, nr := os[0], U16(number + os[0].delta);
            Split(os, number, eSum, uSum)
            == if IsClassE(nr)
               then Parts([CoapOption(U16(nr - eSum), o.value, U8(nr))], [], U16(PredictedLen(o)))
                    .Join(Split(os[1..], nr, U8(nr), uSum))
               else Parts([], [CoapOption(U16(nr - uSum), o.value, U8(nr))], 0)
                    .Join(Split(os[1..], nr, eSum, U8(nr)))
  {
    SumReaches(U16(number + os[0].delta), eSum);
    SumReaches(U16(number + os[0].delta), uSum);
  }

  lemma SplitEnds(number: uint16, eSum: byte, uSum: byte)
    ensures Split([], number, eSum, uSum) == Parts([], [], 0)
  {
  }

  lemma JoinNothing(a: Parts)
    ensures a.Join(Parts([], [], 0)) == a && Parts([], [], 0).Join(a) == a
  {
    assert a.e + [] == a.e == [] + a.e && a.u + [] == a.u == [] + a.u;
  }

  lemma U16Sum(a: int, b: int)
    ensures U16(a + U16(b)) == U16(a + b)
  {
  }

  lemma JoinAssoc(a: Parts, b: Parts, c: Parts)
    ensures a.Join(b).Join(c) == a.Join(b.Join(c))
  {
    AppendAssoc(a.e, b.e, c.e);
    AppendAssoc(a.u, b.u, c.u);
    U16Sum(a.eLen, b.eLen + c.eLen);
    U16Sum(c.eLen, a.eLen + b.eLen);
    hide U16;
  }

  /** The loop of the sender over the options of a packet. */
  method ExtractEU(options: seq<CoapOption>) returns (parts: Parts)
    ensures parts == Split(options, 0, 0, 0)
  {
    hide Split, PredictedLen;
    parts := Parts([], [], 0);
    var nr: uint16, eSum: byte, uSum: byte := 0, 0, 0;
    assert options[0..] == options;
    JoinNothing(Split(options, 0, 0, 0));
    for i := 0 to |options|
      invariant Split(options, 0, 0, 0) == parts.Join(Split(options[i..], nr, eSum, uSum))
    {
      var o := options[i];
      var next: Parts;
      SplitStep(options[i..], nr, eSum, uSum);
      assert options[i..][1..] == options[i + 1..];
      nr := U16(nr + o.delta);
      SumReaches(nr, eSum);
      SumReaches(nr, uSum);
      if IsClassE(nr) {
        var delta := U16(nr - eSum);
        next := Parts([CoapOption(delta, o.value, U8(nr))], [], U16(PredictedLen(o)));
        eSum := U8(eSum + delta);
      } else {
        var delta := U16(nr - uSum);
        next := Parts([], [CoapOption(delta, o.value, U8(nr))], 0);
        uSum := U8(uSum + delta);
      }
      JoinAssoc(parts, next, Split(options[i + 1..], nr, eSum, uSum));
      parts := parts.Join(next);
    }
    SplitEnds(nr, eSum, uSum);
    JoinNothing(parts);
  }

  // ----- an independent description of the two lists -----

  /** The numbers are the exact running sums of the deltas, all below 256. */
  predicate Numbered(os: seq<CoapOption>, number: byte) {
    os == [] || (os[0].number == number + os[0].delta && Numbered(os[1..], os[0].number))
  }

  /** The options of one class, unchanged and in order. */
  function OfClass(os: seq<CoapOption>, encrypted: bool): seq<CoapOption> {
    if os == [] then []
    else (if IsClassE(os[0].number) == encrypted then [os[0]] else []) + OfClass(os[1..], encrypted)
  }

  /** The same options with each delta counted from the number before it. */
  function Rebase(os: seq<CoapOption>, number: byte): (r: seq<CoapOption>)
    ensures |r| == |os|
  {
    if os == [] then []
    else [os[0].(delta := U16(os[0].number - number))] + Rebase(os[1..], os[0].number)
  }

  /** The split gives exactly the options of each class with their deltas re-based. */
  lemma {:induction false} SplitIsRebase(os: seq<CoapOption>, number: byte, eSum: byte, uSum: byte)
    requires Numbered(os, number)
    ensures var parts := Split(os, number, eSum, uSum);
            && parts.e == Rebase(OfClass(os, true), eSum)
            && parts.u == Rebase(OfClass(os, false), uSum)
  {
    hide *;
    if os == [] {
      SplitOfNothing(number, eSum, uSum);
      return;
    }
    var o := os[0];
    NumberedStep(os, number);
    SplitStep(os, number, eSum, uSum);
    RebaseOfClass(os, true, eSum);
    RebaseOfClass(os, false, uSum);
    if IsClassE(o.number) {
      SplitIsRebase(os[1..], o.number, o.number, uSum);
      JoinParts(CoapOption(U16(o.number - eSum), o.value, o.number), true, PredictedLen(o),
          Split(os[1..], o.number, o.number, uSum));
    } else {
      SplitIsRebase(os[1..], o.number, eSum, o.number);
      JoinParts(CoapOption(U16(o.number - uSum), o.value, o.number), false, 0,
          Split(os[1..], o.number, eSum, o.number));
    }
  }

  lemma SplitOfNothing(number: uint16, eSum: byte, uSum: byte)
    ensures Split([], number, eSum, uSum) == Parts(Rebase(OfClass([], true), eSum), Rebase(OfClass([], false), uSum), 0)
  {
  }

  lemma NumberedStep(os: seq<CoapOption>, number: byte)
    requires os != [] && Numbered(os, number)
    ensures U16(number + os[0].delta) == os[0].number == U8(os[0].number)
    ensures Numbered(os[1..], os[0].number) && number <= os[0].number
    ensures os[0].number == number + os[0].delta
  {
  }

  lemma JoinParts(o: CoapOption, encrypted: bool, len: nat, more: Parts)
    ensures Parts(if encrypted then [o] else [], if encrypted then [] else [o], U16(len)).Join(more)
         == Parts(if encrypted then [o] + more.e else more.e, if encrypted then more.u
            else [o] + more.u, U16(len + more.eLen))
    ensures U16(0) == 0
  {
    assert [] + more.e == more.e && [] + more.u == more.u;
  }

  lemma RebaseOfClass(os: seq<CoapOption>, encrypted: bool, sum: byte)
    requires os != []
    ensures Rebase(OfClass(os, encrypted), sum)
         == if IsClassE(os[0].number) == encrypted
            then [CoapOption(U16(os[0].number - sum), os[0].value, os[0].number)]
                 + Rebase(OfClass(os[1..], encrypted), os[0].number)
            else Rebase(OfClass(os[1..], encrypted), sum)
  {
    var o, rest := os[0], OfClass(os[1..], encrypted);
    if IsClassE(o.number) == encrypted {
      assert OfClass(os, encrypted) == [o] + rest && ([o] + rest)[1..] == rest;
      hide OfClass;
    } else {
      assert OfClass(os, encrypted) == [] + rest == rest;
    }
  }

  // ----- the sender: predicted length -----

  /** The predicted length of the encrypted options, without wrap-around. */
  function PredictedSum(os: seq<CoapOption>): nat {
    if os == [] then 0
    else (if IsClassE(os[0].number) then PredictedLen(os[0]) else 0) + PredictedSum(os[1..])
  }

  lemma {:induction false} SplitLength(os: seq<CoapOption>, number: byte, eSum: byte, uSum: byte)
    requires Numbered(os, number)
    ensures Split(os, number, eSum, uSum).eLen == U16(PredictedSum(os))
  {
    hide *;
    if os == [] {
      SplitOfNothing(number, eSum, uSum);
      PredictedOfNothing();
      return;
    }
    var o := os[0];
    SplitStep(os, number, eSum, uSum);
    NumberedStep(os, number);
    PredictedStep(os);
    U16Sum(if IsClassE(o.number) then PredictedLen(o) else 0, PredictedSum(os[1..]));
    if IsClassE(o.number) {
      SplitLength(os[1..], o.number, o.number, uSum);
      JoinParts(CoapOption(U16(o.number - eSum), o.value, o.number), true, PredictedLen(o),
          Split(os[1..], o.number, o.number, uSum));
    } else {
      SplitLength(os[1..], o.number, eSum, o.number);
      JoinParts(CoapOption(U16(o.number - uSum), o.value, o.number), false, 0,
          Split(os[1..], o.number, eSum, o.number));
    }
  }

  lemma PredictedOfNothing()
    ensures PredictedSum([]) == 0 && U16(0) == 0
  {
  }

  lemma PredictedStep(os: seq<CoapOption>)
    requires os != []
    ensures PredictedSum(os) == (if IsClassE(os[0].number) then PredictedLen(os[0]) else 0) + PredictedSum(os[1..])
  {
  }

  /**
   * No encrypted value is 13 bytes long, and each delta of the packet needs (by the thresholds
   * of the prediction) as many extra bytes as its re-based delta needs (by those of the writer).
   */
  predicate LengthsExact(os: seq<CoapOption>, eSum: byte) {
    os == [] ||
    if IsClassE(os[0].number) then
      && |os[0].value| != 13
      && PredictedExt(os[0].delta) == ExtLen(U16(os[0].number - eSum))
      && LengthsExact(os[1..], os[0].number)
    else
      LengthsExact(os[1..], eSum)
  }

  lemma AccountOne(o: CoapOption, delta: uint16)
    requires o.delta <= delta
    ensures var actual := |EncodeOption(CoapOption(delta, o.value, o.number))|;
            && PredictedLen(o) <= actual
            && (PredictedLen(o) == actual <==> |o.value| != 13 && PredictedExt(o.delta) == ExtLen(delta))
  {
  }

  /** The prediction never exceeds the serialised length, and meets it exactly as stated. */
  lemma {:induction false} PlaintextAccounting(os: seq<CoapOption>, number: byte, eSum: byte)
    requires Numbered(os, number) && eSum <= number
    ensures var actual := |EncodeOptions(Rebase(OfClass(os, true), eSum))|;
            PredictedSum(os) <= actual && (PredictedSum(os) == actual <==> LengthsExact(os, eSum))
  {
    hide *;
    if os == [] {
      AccountNothing(eSum);
      return;
    }
    var o := os[0];
    NumberedStep(os, number);
    PredictedStep(os);
    LengthsExactStep(os, eSum);
    RebaseOfClass(os, true, eSum);
    if IsClassE(o.number) {
      PlaintextAccounting(os[1..], o.number, o.number);
      var first, rest := CoapOption(U16(o.number - eSum), o.value, o.number), Rebase(OfClass(os[1..], true), o.number);
      SumReaches(o.number, eSum);
      AccountOne(o, first.delta);
      EncodeOneOption(first);
      EncodeOptionsAppend([first], rest);
    } else {
      PlaintextAccounting(os[1..], o.number, eSum);
    }
  }

  lemma AccountNothing(eSum: byte)
    ensures PredictedSum([]) == 0 && |EncodeOptions(Rebase(OfClass([], true), eSum))| == 0 && LengthsExact([], eSum)
  {
  }

  lemma LengthsExactStep(os: seq<CoapOption>, eSum: byte)
    requires os != []
    ensures LengthsExact(os, eSum)
       <==> if IsClassE(os[0].number) then
              && |os[0].value| != 13
              && PredictedExt(os[0].delta) == ExtLen(U16(os[0].number - eSum))
              && LengthsExact(os[1..], os[0].number)
            else
              LengthsExact(os[1..], eSum)
  {
  }

  // ----- the sender: inserting the OSCORE option -----

  /** Index of the first option numbered above the OSCORE option, or the length. */
  function OscorePosition(us: seq<CoapOption>): (k: nat)
    ensures k <= |us|
    ensures forall i :: 0 <= i < k ==> us[i].number <= OSCORE
    ensures k < |us| ==> us[k].number > OSCORE
  {
    if us == [] || us[0].number > OSCORE then 0 else 1 + OscorePosition(us[1..])
  }

  /** The outer options with the OSCORE option in its place and all deltas re-based. */
  function WithOscore(us: seq<CoapOption>, value: Value): seq<CoapOption> {
    Rebase(Inserted(us, value, OscorePosition(us)), 0)
  }

  function Inserted(us: seq<CoapOption>, value: Value, k: nat): (r: seq<CoapOption>)
    requires k <= |us|
    ensures |r| == |us| + 1
  {
    us[..k] + [CoapOption(0, value, OSCORE)] + us[k..]
  }

  function LastNumber(os: seq<CoapOption>, number: byte): byte {
    if os == [] then number else os[|os| - 1].number
  }

  lemma {:induction false} RebaseAppend(a: seq<CoapOption>, o: CoapOption, number: byte)
    ensures Rebase(a + [o], number)
         == Rebase(a, number) + [o.(delta := U16(o.number - LastNumber(a, number)))]
  {
    if a == [] {
      assert a + [o] == [o];
    } else {
      RebaseAppend(a[1..], o, a[0].number);
      assert (a + [o])[1..] == a[1..] + [o];
    }
  }

  /** The loop of the sender that looks for the place of the OSCORE option. */
  method FindPlace(us: seq<CoapOption>) returns (place: nat)
    ensures place == OscorePosition(us)
  {
    place := |us|;
    for i := 0 to |us|
      invariant place == |us| && i <= OscorePosition(us)
    {
      if us[i].number > OSCORE {
        place := i;
        break;
      }
    }
  }

  /** The options placed after `i` rounds of the loop below. */
  function Placed(us: seq<CoapOption>, value: Value, k: nat, i: nat): seq<CoapOption>
    requires k <= |us| && i <= |us| + 1
  {
    Inserted(us, value, k)[..i]
  }

  lemma PlaceOne(us: seq<CoapOption>, value: Value, k: nat, i: nat)
    requires k <= |us| && i <= |us|
    ensures var o := if i == k then CoapOption(0, value, OSCORE) else if i < k then us[i] else us[i - 1];
            var before, after := Placed(us, value, k, i), Placed(us, value, k, i + 1);
            && Rebase(after, 0) == Rebase(before, 0) + [o.(delta := U16(o.number - LastNumber(before, 0)))]
            && LastNumber(after, 0) == o.number
  {
    var all := Inserted(us, value, k);
    var o := if i == k then CoapOption(0, value, OSCORE) else if i < k then us[i] else us[i - 1];
    assert all[i] == o;
    assert all[..i + 1] == all[..i] + [o];
    RebaseAppend(all[..i], o, 0);
  }

  /** One round of the loop below: the option placed next, and the sum after it. */
  lemma PlaceNext(us: seq<CoapOption>, value: Value, k: nat, i: nat, out: seq<CoapOption>, sum: byte)
    requires k <= |us| && i <= |us|
    requires out == Rebase(Placed(us, value, k, i), 0) && sum == LastNumber(Placed(us, value, k, i), 0)
    ensures var o := if i == k then CoapOption(0, value, OSCORE) else if i < k then us[i] else us[i - 1];
            var d := U16(o.number - sum);
            && out + [o.(delta := d)] == Rebase(Placed(us, value, k, i + 1), 0)
            && U8(sum + d) == LastNumber(Placed(us, value, k, i + 1), 0)
  {
    hide *;
    var o := if i == k then CoapOption(0, value, OSCORE) else if i < k then us[i] else us[i - 1];
    PlaceOne(us, value, k, i);
    SumReaches(o.number, sum);
    ByteStays(o.number);
  }

  /** The body of the loop below: takes the next option or OSCORE, and re-bases its delta on the running sum. */
  method PlaceRound(us: seq<CoapOption>, value: Value, place: nat, i: nat, next: nat, out: seq<CoapOption>, sum: byte)
      returns (more: seq<CoapOption>, reached: byte)
    requires place <= |us| && i <= |us| && next == if i <= place then i else i - 1
    requires out == Rebase(Placed(us, value, place, i), 0) && sum == LastNumber(Placed(us, value, place, i), 0)
    ensures more == Rebase(Placed(us, value, place, i + 1), 0)
    ensures reached == LastNumber(Placed(us, value, place, i + 1), 0)
  {
    hide *;
    PlaceNext(us, value, place, i, out, sum);
    var o := if i == place then CoapOption(0, value, OSCORE) else us[next];
    var delta := U16(o.number - sum);
    more := out + [o.(delta := delta)];
    reached := U8(sum + delta);
  }

  /** The loop of the sender that copies the options with a running 8-bit sum. */
  method InsertOscore(us: seq<CoapOption>, value: Value) returns (out: seq<CoapOption>)
    ensures out == WithOscore(us, value)
  {
    var place := FindPlace(us);
    out := [];
    var sum: byte, next: nat := 0, 0;
    PlaceNothing(us, value, place);
    hide *;
    for i := 0 to |us| + 1
      invariant next == if i <= place then i else i - 1
      invariant out == Rebase(Placed(us, value, place, i), 0)
      invariant sum == LastNumber(Placed(us, value, place, i), 0)
    {
      out, sum := PlaceRound(us, value, place, i, next, out, sum);
      if i != place {
        next := next + 1;
      }
    }
    PlaceAll(us, value);
  }

  lemma PlaceNothing(us: seq<CoapOption>, value: Value, k: nat)
    requires k <= |us|
    ensures Rebase(Placed(us, value, k, 0), 0) == [] && LastNumber(Placed(us, value, k, 0), 0) == 0
  {
  }

  lemma PlaceAll(us: seq<CoapOption>, value: Value)
    ensures WithOscore(us, value) == Rebase(Placed(us, value, OscorePosition(us), |us| + 1), 0)
  {
    hide Rebase, OscorePosition;
    var k := OscorePosition(us);
    assert Placed(us, value, k, |us| + 1) == Inserted(us, value, k);
  }

  lemma ByteStays(b: byte)
    ensures U8(b) == b == U16(b)
  {
  }

  // ----- the receiver: sorting the numbers -----

  predicate Sorted(s: bytes) {
    forall i, j :: 0 <= i < j < |s| ==> s[i] <= s[j]
  }

  /** The specification of the sort: insertion into a sorted sequence. */
  function InsertSorted(x: byte, s: bytes): bytes {
    if s == [] || x <= s[0] then [x] + s else [s[0]] + InsertSorted(x, s[1..])
  }

  function Sort(s: bytes): bytes {
    if s == [] then [] else InsertSorted(s[0], Sort(s[1..]))
  }

  lemma {:induction false} InsertSortedCorrect(x: byte, s: bytes)
    requires Sorted(s)
    ensures Sorted(InsertSorted(x, s)) && multiset(InsertSorted(x, s)) == multiset{x} + multiset(s)
  {
    if s != [] && x > s[0] {
      InsertSortedCorrect(x, s[1..]);
      assert s == [s[0]] + s[1..];
      hide InsertSorted;
      SortedCons(s[0], InsertSorted(x, s[1..]), x, s[1..]);
    } else {
      assert multiset([x] + s) == multiset{x} + multiset(s);
    }
  }

  lemma SortedCons(first: byte, r: bytes, x: byte, s: bytes)
    requires Sorted(r) && Sorted([first] + s) && first <= x && multiset(r) == multiset{x} + multiset(s)
    ensures Sorted([first] + r)
  {
    forall i | 0 <= i < |r|
      ensures first <= r[i]
    {
      assert r[i] in multiset{x} + multiset(s);
      if r[i] != x {
        assert r[i] in multiset(s) && r[i] in s;
        var j :| 0 <= j < |s| && s[j] == r[i];
        assert ([first] + s)[0] == first && ([first] + s)[j + 1] == r[i];
      }
    }
  }

  /** `Sort` gives a sorted permutation. */
  lemma {:induction false} SortCorrect(s: bytes)
    ensures Sorted(Sort(s)) && multiset(Sort(s)) == multiset(s)
  {
    if s != [] {
      SortCorrect(s[1..]);
      InsertSortedCorrect(s[0], Sort(s[1..]));
      assert s == [s[0]] + s[1..];
    }
  }

  lemma TailSorted(s: bytes)
    requires Sorted(s) && s != []
    ensures Sorted(s[1..])
  {
  }

  /** There is only one sorted permutation. */
  lemma {:induction false} SortedUnique(a: bytes, b: bytes)
    requires Sorted(a) && Sorted(b) && multiset(a) == multiset(b)
    ensures a == b
  {
    assert |multiset(a)| == |a| && |multiset(b)| == |b|;
    if a != [] {
      assert a[0] in multiset(b) && b[0] in multiset(a);
      assert a[0] == b[0];
      assert a == [a[0]] + a[1..] && b == [b[0]] + b[1..];
      assert multiset(a[1..]) == multiset(a) - multiset{a[0]};
      assert multiset(b[1..]) == multiset(b) - multiset{b[0]};
      TailSorted(a);
      TailSorted(b);
      hide Sorted;
      SortedUnique(a[1..], b[1..]);
    }
  }

  method Swap(a: array<byte>, i: nat, k: nat)
    requires i < k < a.Length
    modifies a
    ensures a[..] == old(a[..])[i := old(a[k])][k := old(a[i])]
    ensures multiset(a[..]) == multiset(old(a[..]))
  {
    a[i], a[k] := a[k], a[i];
  }

  /** The first `i` entries are sorted and none exceeds a later entry. */
  ghost predicate FrontSorted(s: bytes, i: nat) {
    forall p, q :: 0 <= p < i && p < q < |s| ==> s[p] <= s[q]
  }

  lemma SwapKeepsFront(s: bytes, i: nat, k: nat)
    requires i < k < |s| && FrontSorted(s, i)
    ensures FrontSorted(s[i := s[k]][k := s[i]], i)
  {
    var t := s[i := s[k]][k := s[i]];
    forall p, q | 0 <= p < i && p < q < |t|
      ensures t[p] <= t[q]
    {
      assert t[p] == s[p] && t[q] == s[if q == i then k else if q == k then i else q];
    }
  }

  /** The inner loop: entry `i` becomes the least of the entries from `i` on. */
  method ExchangeFrom(a: array<byte>, i: nat)
    requires i < a.Length && FrontSorted(a[..], i)
    modifies a
    ensures multiset(a[..]) == multiset(old(a[..])) && FrontSorted(a[..], i + 1)
  {
    for k := i + 1 to a.Length
      invariant multiset(a[..]) == multiset(old(a[..]))
      invariant FrontSorted(a[..], i)
      invariant forall q :: i < q < k ==> a[i] <= a[q]
    {
      if a[i] > a[k] {
        SwapKeepsFront(a[..], i, k);
        Swap(a, i, k);
      }
    }
  }

  /** The exchange sort of the receiver, in place. */
  method ExchangeSort(a: array<byte>)
    modifies a
    ensures a[..] == Sort(old(a[..]))
  {
    for i := 0 to a.Length
      invariant multiset(a[..]) == multiset(old(a[..])) && FrontSorted(a[..], i)
    {
      ExchangeFrom(a, i);
    }
    SortCorrect(old(a[..]));
    SortedUnique(a[..], Sort(old(a[..])));
  }

  // ----- the receiver: merging -----

  function Numbers(os: seq<CoapOption>): (r: bytes)
    ensures |r| == |os|
  {
    seq(|os|, i requires 0 <= i < |os| => os[i].number)
  }

  function WithoutOscore(os: seq<CoapOption>): (r: seq<CoapOption>)
    ensures |r| <= |os|
    ensures (exists o <- os :: o.number == OSCORE) ==> |r| < |os|
  {
    if os == [] then []
    else (if os[0].number == OSCORE then [] else [os[0]]) + WithoutOscore(os[1..])
  }

  /** The numbers to sort: one entry per option but one, zero where no number was stored. */
  function NumbersToSort(us: seq<CoapOption>, es: seq<CoapOption>): (r: bytes)
    requires exists o <- us :: o.number == OSCORE
    ensures |r| == |us| + |es| - 1
  {
    var stored := Numbers(WithoutOscore(us)) + Numbers(es);
    stored + Zeros(|us| + |es| - 1 - |stored|)
  }

  /**
   * The walk over the sorted numbers with the options of each list not yet used: an entry is
   * taken from the list whose next option has the number, the outer list first; a number that
   * neither has is passed over.  `sum` is the number reached, `room` the free output entries.
   */
  function Walk(sorted: bytes, us: seq<CoapOption>, es: seq<CoapOption>, sum: byte,
      room: nat): Result<seq<CoapOption>> {
    if sorted == [] then Ok([])
    else
      var n := sorted[0];
      if us == [] then Err(Undefined)
      else if us[0].number == n then
        if room == 0 then Err(Undefined)
        else Prepend([us[0].(delta := U16(n - sum))], Walk(sorted[1..], us[1..], es, n, room - 1))
      else if es == [] then Err(Undefined)
      else if es[0].number == n then
        if room == 0 then Err(Undefined)
        else Prepend([es[0].(delta := U16(n - sum))], Walk(sorted[1..], us, es[1..], n, room - 1))
      else Walk(sorted[1..], us, es, sum, room)
  }

  function Merge(us: seq<CoapOption>, es: seq<CoapOption>): Result<seq<CoapOption>>
    requires exists o <- us :: o.number == OSCORE
  {
    Walk(Sort(NumbersToSort(us, es)), us, es, 0, MAX_OPTION_COUNT)
  }

  lemma NumbersAppend(a: seq<CoapOption>, b: seq<CoapOption>)
    ensures Numbers(a + b) == Numbers(a) + Numbers(b)
  {
  }

  lemma {:induction false} WithoutOscoreAppend(a: seq<CoapOption>, b: seq<CoapOption>)
    ensures WithoutOscore(a + b) == WithoutOscore(a) + WithoutOscore(b)
  {
    if a == [] {
      assert a + b == b;
    } else {
      WithoutOscoreAppend(a[1..], b);
      assert (a + b)[1..] == a[1..] + b;
      AppendAssoc(if a[0].number == OSCORE then [] else [a[0]], WithoutOscore(a[1..]), WithoutOscore(b));
    }
  }

  /** The numbers stored after `i` entries of both lists are looked at. */
  function Stored(us: seq<CoapOption>, es: seq<CoapOption>, i: nat): bytes
    requires i <= |us| + |es|
  {
    if i <= |us| then Numbers(WithoutOscore(us[..i]))
    else Numbers(WithoutOscore(us)) + Numbers(es[..i - |us|])
  }

  lemma StoredStep(us: seq<CoapOption>, es: seq<CoapOption>, i: nat)
    requires i < |us| + |es|
    ensures Stored(us, es, i + 1) == Stored(us, es, i)
         + if i >= |us| then [es[i - |us|].number] else if us[i].number == OSCORE then [] else [us[i].number]
  {
    if i < |us| {
      assert us[..i + 1] == us[..i] + [us[i]];
      WithoutOscoreAppend(us[..i], [us[i]]);
      NumbersAppend(WithoutOscore(us[..i]), WithoutOscore([us[i]]));
      assert Numbers(WithoutOscore([us[i]])) == if us[i].number == OSCORE then [] else [us[i].number];
      hide WithoutOscore, Numbers;
    } else {
      hide WithoutOscore;
      var e := i - |us|;
      assert es[..e + 1] == es[..e] + [es[e]];
      NumbersAppend(es[..e], [es[e]]);
      AppendAssoc(Numbers(WithoutOscore(us)), Numbers(es[..e]), [es[e].number]);
      assert us[..|us|] == us && Numbers(es[..0]) == [];
    }
  }

  lemma {:induction false} StoredGrows(us: seq<CoapOption>, es: seq<CoapOption>, i: nat)
    requires i <= |us| + |es|
    ensures |Stored(us, es, i)| <= |Stored(us, es, |us| + |es|)|
    decreases |us| + |es| - i
  {
    if i < |us| + |es| {
      StoredStep(us, es, i);
      StoredGrows(us, es, i + 1);
    }
  }

  lemma StoredAll(us: seq<CoapOption>, es: seq<CoapOption>)
    ensures Stored(us, es, |us| + |es|) == Numbers(WithoutOscore(us)) + Numbers(es)
    ensures Stored(us, es, 0) == []
  {
    assert us[..|us|] == us && es[..|es|] == es && Numbers(WithoutOscore([])) == [];
  }

  /** Stores the numbers of both lists but those of OSCORE options into a zeroed array. */
  method CollectNumbers(us: seq<CoapOption>, es: seq<CoapOption>) returns (a: array<byte>)
    requires exists o <- us :: o.number == OSCORE
    ensures fresh(a) && a[..] == NumbersToSort(us, es)
  {
    hide *;
    var count := |us| + |es| - 1;
    a := new byte[count](_ => 0);
    var j: nat := 0;
    StoredAll(us, es);
    NumbersToSortAre(us, es);
    for i := 0 to count + 1
      invariant j <= count && a[..j] == Stored(us, es, i)
      invariant forall q :: j <= q < count ==> a[q] == 0
    {
      StoredStep(us, es, i);
      StoredGrows(us, es, i + 1);
      if i < |us| {
        if us[i].number != OSCORE {
          a[j] := us[i].number;
          j := j + 1;
        }
      } else {
        a[j] := es[i - |us|].number;
        j := j + 1;
      }
    }
    ZerosAre(a[j..]);
    assert a[..] == a[..j] + a[j..];
  }

  lemma ZerosAre(s: bytes)
    ensures s == Zeros(|s|) <==> forall i :: 0 <= i < |s| ==> s[i] == 0
  {
  }

  lemma NumbersToSortAre(us: seq<CoapOption>, es: seq<CoapOption>)
    requires exists o <- us :: o.number == OSCORE
    ensures var stored := Stored(us, es, |us| + |es|);
            |stored| <= |us| + |es| - 1 && NumbersToSort(us, es) == stored + Zeros(|us| + |es| - 1 - |stored|)
  {
    StoredAll(us, es);
  }

  lemma WalkEnds(sorted: bytes, es: seq<CoapOption>, sum: byte, room: nat)
    requires sorted != []
    ensures Walk(sorted, [], es, sum, room) == Err(Undefined)
  {
  }

  lemma WalkNothing(us: seq<CoapOption>, es: seq<CoapOption>, sum: byte, room: nat)
    ensures Walk([], us, es, sum, room) == Ok([])
  {
  }

  lemma WalkStep(sorted: bytes, us: seq<CoapOption>, es: seq<CoapOption>, sum: byte, room: nat)
    requires sorted != [] && us != []
    ensures var n := sorted[0];
            Walk(sorted, us, es, sum, room)
            == if us[0].number == n then
                 if room == 0 then Err(Undefined)
                 else Prepend([us[0].(delta := U16(n - sum))], Walk(sorted[1..], us[1..], es, n, room - 1))
               else if es == [] then Err(Undefined)
               else if es[0].number == n then
                 if room == 0 then Err(Undefined)
                 else Prepend([es[0].(delta := U16(n - sum))], Walk(sorted[1..], us, es[1..], n, room - 1))
               else Walk(sorted[1..], us, es, sum, room)
  {
  }

  /** Which list the option with number `n` is taken from at the entries `u` and `e`. */
  datatype Source = Outer | Encrypted | Neither | OutOfBounds

  function SourceOf(n: byte, us: seq<CoapOption>, es: seq<CoapOption>): Source {
    if us == [] then OutOfBounds
    else if us[0].number == n then Outer
    else if es == [] then OutOfBounds
    else if es[0].number == n then Encrypted
    else Neither
  }

  /** The step of the walk at the entries `i`, `u` and `e`. */
  lemma WalkAt(sorted: bytes, i: nat, us: seq<CoapOption>, u: nat, es: seq<CoapOption>, e: nat, sum: byte, room: nat)
    requires i < |sorted| && u <= |us| && e <= |es|
    ensures var n, source := sorted[i], SourceOf(sorted[i], us[u..], es[e..]);
            var walk := Walk(sorted[i..], us[u..], es[e..], sum, room);
            match source
            case Neither => walk == Walk(sorted[i + 1..], us[u..], es[e..], sum, room)
            case OutOfBounds => walk == Err(Undefined)
            case Outer =>
              && u < |us| && us[u].number == n
              && (room == 0 ==> walk == Err(Undefined))
              && (room > 0 ==> walk == Prepend([us[u].(delta := U16(n - sum))],
                 Walk(sorted[i + 1..], us[u + 1..], es[e..], n, room - 1)))
            case Encrypted =>
              && e < |es| && es[e].number == n
              && (room == 0 ==> walk == Err(Undefined))
              && (room > 0 ==> walk == Prepend([es[e].(delta := U16(n - sum))],
                 Walk(sorted[i + 1..], us[u..], es[e + 1..], n, room - 1)))
  {
    if u < |us| {
      WalkStep(sorted[i..], us[u..], es[e..], sum, room);
    } else {
      WalkEnds(sorted[i..], es[e..], sum, room);
    }
    hide Walk, Prepend;
    assert sorted[i..][1..] == sorted[i + 1..];
    assert u < |us| ==> us[u..][1..] == us[u + 1..];
    assert e < |es| ==> es[e..][1..] == es[e + 1..];
  }

  method ChooseSource(n: byte, us: seq<CoapOption>, u: nat, es: seq<CoapOption>, e: nat) returns (source: Source)
    requires u <= |us| && e <= |es|
    ensures source == SourceOf(n, us[u..], es[e..])
  {
    if u == |us| {
      source := OutOfBounds;
    } else if n == us[u].number {
      source := Outer;
    } else if e == |es| {
      source := OutOfBounds;
    } else if n == es[e].number {
      source := Encrypted;
    } else {
      source := Neither;
    }
  }

  /** Walks over the sorted numbers with one index per list. */
  method WalkSorted(a: array<byte>, us: seq<CoapOption>, es: seq<CoapOption>) returns (r: Result<seq<CoapOption>>)
    ensures r == Walk(a[..], us, es, 0, MAX_OPTION_COUNT)
  {
    hide *;
    var out: seq<CoapOption> := [];
    var sum: byte, u: nat, e: nat := 0, 0, 0;
    ghost var sorted := a[..];
    assert sorted[0..] == sorted && us[0..] == us && es[0..] == es;
    ghost var rest := Walk(sorted, us, es, 0, MAX_OPTION_COUNT);
    PrependNothing(rest);
    for i := 0 to a.Length
      invariant u <= |us| && e <= |es| && |out| <= MAX_OPTION_COUNT
      invariant Walk(sorted, us, es, 0, MAX_OPTION_COUNT) == Prepend(out, rest)
      invariant rest == Walk(sorted[i..], us[u..], es[e..], sum, MAX_OPTION_COUNT - |out|)
    {
      WalkAt(sorted, i, us, u, es, e, sum, MAX_OPTION_COUNT - |out|);
      PrependError(out, Undefined);
      var source := ChooseSource(a[i], us, u, es, e);
      if source == OutOfBounds || (source != Neither && |out| == MAX_OPTION_COUNT) {
        return Err(Undefined);
      }
      if source != Neither {
        var o;
        if source == Outer {
          o := us[u].(delta := U16(us[u].number - sum));
          u := u + 1;
        } else {
          o := es[e].(delta := U16(es[e].number - sum));
          e := e + 1;
        }
        SumReaches(o.number, sum);
        ByteStays(o.number);
        PrependTwice(out, [o], Walk(sorted[i + 1..], us[u..], es[e..], a[i], MAX_OPTION_COUNT - |out| - 1));
        sum := U16(sum + o.delta);
        out := out + [o];
      }
      rest := Walk(sorted[i + 1..], us[u..], es[e..], sum, MAX_OPTION_COUNT - |out|);
    }
    assert sorted[a.Length..] == [];
    WalkNothing(us[u..], es[e..], sum, MAX_OPTION_COUNT - |out|);
    PrependEnds(out);
    r := Ok(out);
  }

  /** Sorts the numbers of both lists and merges the lists in the order of the numbers. */
  method ReorderOptions(us: seq<CoapOption>, es: seq<CoapOption>) returns (r: Result<seq<CoapOption>>)
    requires exists o <- us :: o.number == OSCORE
    ensures r == Merge(us, es)
  {
    hide NumbersToSort, Sort, Walk;
    var count := |us| + |es| - 1;
    if count > 0 {
      var a := CollectNumbers(us, es);
      ExchangeSort(a);
      r := WalkSorted(a, us, es);
    } else {
      SortNothing(NumbersToSort(us, es));
      WalkNothing(us, es, 0, MAX_OPTION_COUNT);
      r := Ok([]);
    }
  }

  lemma SortNothing(s: bytes)
    requires s == []
    ensures Sort(s) == []
  {
  }
}
