/** Splitting the options of a packet and merging the lists back: when it is the identity. */
module SplitMerge {
  import opened Bytes
  import opened OscoreErrors
  import opened Coap
  import opened Options

  /** Same numbers and values, whatever the deltas. */
  ghost predicate SameContent(a: seq<CoapOption>, b: seq<CoapOption>) {
    |a| == |b| && forall i :: 0 <= i < |a| ==> a[i].number == b[i].number && a[i].value == b[i].value
  }

  /** None of the options the merge loses: OSCORE itself and the outer options above it. */
  predicate Mergeable(os: seq<CoapOption>) {
    forall o <- os :: o.number != 9 && o.number != 35 && o.number != 39
  }

  lemma {:induction false} RebaseContent(os: seq<CoapOption>, number: byte)
    ensures SameContent(Rebase(os, number), os)
  {
    if os != [] {
      RebaseContent(os[1..], os[0].number);
    }
  }

  lemma {:induction false} OfClassMembers(os: seq<CoapOption>, encrypted: bool)
    ensures forall o <- OfClass(os, encrypted) :: o in os && IsClassE(o.number) == encrypted
    ensures forall o <- os :: IsClassE(o.number) == encrypted ==> o in OfClass(os, encrypted)
  {
    if os != [] {
      OfClassMembers(os[1..], encrypted);
      assert os == [os[0]] + os[1..];
    }
  }

  lemma {:induction false} OfClassSizes(os: seq<CoapOption>)
    ensures |OfClass(os, true)| + |OfClass(os, false)| == |os|
    ensures multiset(Numbers(OfClass(os, true))) + multiset(Numbers(OfClass(os, false))) == multiset(Numbers(os))
  {
    if os == [] {
      return;
    }
    OfClassSizes(os[1..]);
    var o, e, u := os[0], OfClass(os[1..], true), OfClass(os[1..], false);
    assert os == [o] + os[1..];
    NumbersOfOneMore(o, os[1..]);
    if IsClassE(o.number) {
      NumbersOfOneMore(o, e);
      assert OfClass(os, true) == [o] + e && OfClass(os, false) == u;
    } else {
      NumbersOfOneMore(o, u);
      assert OfClass(os, false) == [o] + u && OfClass(os, true) == e;
    }
    hide OfClass, Numbers, IsClassE;
  }

  lemma NumbersOfOneMore(o: CoapOption, os: seq<CoapOption>)
    ensures multiset(Numbers([o] + os)) == multiset{o.number} + multiset(Numbers(os))
  {
    NumbersAppend([o], os);
    assert Numbers([o]) == [o.number];
  }

  lemma NumbersOfContent(a: seq<CoapOption>, b: seq<CoapOption>)
    requires SameContent(a, b)
    ensures Numbers(a) == Numbers(b)
  {
  }

  lemma {:induction false} NumberedIsSorted(os: seq<CoapOption>, number: byte)
    requires Numbered(os, number)
    ensures Sorted(Numbers(os)) && forall n <- Numbers(os) :: number <= n
  {
    if os != [] {
      NumberedIsSorted(os[1..], os[0].number);
      var tail := Numbers(os[1..]);
      assert Numbers(os) == [os[0].number] + tail;
      assert forall i :: 0 <= i < |tail| ==> tail[i] in tail;
    }
  }

  /** The two lists of the options `os`, the outer one ended by the OSCORE option. */
  ghost predicate ListsOf(os: seq<CoapOption>, us: seq<CoapOption>, es: seq<CoapOption>) {
    && SameContent(es, OfClass(os, true))
    && |us| > 0 && us[|us| - 1].number == OSCORE && SameContent(us[..|us| - 1], OfClass(os, false))
  }

  /** The first option heads the list of its class; the other list is that of the tail. */
  lemma ListsStep(os: seq<CoapOption>, us: seq<CoapOption>, es: seq<CoapOption>)
    requires os != [] && ListsOf(os, us, es)
    ensures us != [] && (us[0].number == os[0].number <==> !IsClassE(os[0].number))
    ensures IsClassE(os[0].number) ==>
              es != [] && es[0].(delta := os[0].delta) == os[0] && ListsOf(os[1..], us, es[1..])
    ensures !IsClassE(os[0].number) ==>
              us[0].(delta := os[0].delta) == os[0] && ListsOf(os[1..], us[1..], es)
  {
    OfClassStep(os);
    OuterDiffers(os, us);
    hide OfClass, IsClassE, SameContent;
    if IsClassE(os[0].number) {
      ContentCons(es, os[0], OfClass(os[1..], true));
    } else {
      var front := us[..|us| - 1];
      ContentCons(front, os[0], OfClass(os[1..], false));
      assert us[0] == front[0] && us[1..][..|us| - 2] == front[1..];
    }
  }

  lemma ContentCons(a: seq<CoapOption>, o: CoapOption, rest: seq<CoapOption>)
    requires SameContent(a, [o] + rest)
    ensures a != [] && a[0].(delta := o.delta) == o && SameContent(a[1..], rest)
  {
    assert forall i :: 0 <= i < |rest| ==> ([o] + rest)[i + 1] == rest[i];
  }

  lemma NumbersStep(os: seq<CoapOption>)
    requires os != []
    ensures Numbers(os)[0] == os[0].number && Numbers(os)[1..] == Numbers(os[1..])
  {
  }

  lemma DeltaIsDifference(o: CoapOption, number: byte)
    requires o.number == number + o.delta
    ensures U16(o.number - number) == o.delta
  {
  }

  /** One step of the walk: the first option is taken from the list that holds it. */
  lemma WalkTakesFirst(os: seq<CoapOption>, us: seq<CoapOption>, es: seq<CoapOption>, number: byte, room: nat)
      returns (us': seq<CoapOption>, es': seq<CoapOption>)
    requires os != [] && os[0].number == number + os[0].delta && room > 0 && ListsOf(os, us, es)
    ensures ListsOf(os[1..], us', es')
    ensures Walk(Numbers(os), us, es, number, room)
         == Prepend([os[0]], Walk(Numbers(os[1..]), us', es', os[0].number, room - 1))
  {
    hide *;
    ListsStep(os, us, es);
    NumbersStep(os);
    DeltaIsDifference(os[0], number);
    us', es' := us, es;
    if IsClassE(os[0].number) {
      es' := es[1..];
    } else {
      us' := us[1..];
    }
    ListsNonEmpty(os, us, es);
    WalkStep(Numbers(os), us, es, number, room);
  }

  lemma ListsNonEmpty(os: seq<CoapOption>, us: seq<CoapOption>, es: seq<CoapOption>)
    requires ListsOf(os, us, es)
    ensures us != []
  {
  }

  lemma NumberedFront(os: seq<CoapOption>, number: byte)
    requires Numbered(os, number) && os != []
    ensures os[0].number == number + os[0].delta && Numbered(os[1..], os[0].number)
  {
  }

  lemma WalkDone(us: seq<CoapOption>, es: seq<CoapOption>, number: byte, room: nat)
    ensures Walk(Numbers([]), us, es, number, room) == Ok([])
  {
  }

  /** The walk takes every option in its original place. */
  lemma {:induction false} WalkRestores(os: seq<CoapOption>, us: seq<CoapOption>, es: seq<CoapOption>, number: byte,
      room: nat)
    requires Numbered(os, number) && |os| <= room && ListsOf(os, us, es)
    ensures Walk(Numbers(os), us, es, number, room) == Ok(os)
  {
    hide *;
    if os == [] {
      WalkDone(us, es, number, room);
    } else {
      NumberedFront(os, number);
      var us', es' := WalkTakesFirst(os, us, es, number, room);
      WalkRestores(os[1..], us', es', os[0].number, room - 1);
      PrependOne(os[0], os[1..]);
      assert [os[0]] + os[1..] == os;
    }
  }

  lemma PrependOne(o: CoapOption, tail: seq<CoapOption>)
    ensures Prepend([o], Ok(tail)) == Ok([o] + tail)
  {
  }

  lemma OfClassStep(os: seq<CoapOption>)
    requires os != []
    ensures var e, u := OfClass(os, true), OfClass(os, false);
            if IsClassE(os[0].number)
            then e != [] && e[0] == os[0] && e[1..] == OfClass(os[1..], true) && u == OfClass(os[1..], false)
            else u != [] && u[0] == os[0] && u[1..] == OfClass(os[1..], false) && e == OfClass(os[1..], true)
  {
  }

  lemma OuterDiffers(os: seq<CoapOption>, us: seq<CoapOption>)
    requires |us| > 0 && us[|us| - 1].number == OSCORE && SameContent(us[..|us| - 1], OfClass(os, false))
    ensures !IsClassE(us[0].number)
  {
    OfClassMembers(os, false);
    if |us| > 1 {
      assert us[0] == us[..|us| - 1][0] && OfClass(os, false)[0] in OfClass(os, false);
    }
  }

  /** The outer list is never walked past an OSCORE option. */
  lemma {:induction false} WalkStops(sorted: bytes, us: seq<CoapOption>, es: seq<CoapOption>, sum: byte, room: nat,
      k: nat)
    requires OSCORE !in sorted && k < |us| && us[k].number == OSCORE
    ensures var r := Walk(sorted, us, es, sum, room); r.Ok? ==> |r.value| <= k + |es|
  {
    if sorted != [] {
      WalkStep(sorted, us, es, sum, room);
      if us[0].number == sorted[0] {
        if room > 0 {
          WalkStops(sorted[1..], us[1..], es, sorted[0], room - 1, k - 1);
        }
      } else if es != [] && es[0].number == sorted[0] {
        if room > 0 {
          WalkStops(sorted[1..], us, es[1..], sorted[0], room - 1, k);
        }
      } else if es != [] {
        WalkStops(sorted[1..], us, es, sum, room, k);
      }
    }
  }

  lemma {:induction false} WithoutOscoreNumbers(os: seq<CoapOption>)
    ensures OSCORE !in Numbers(WithoutOscore(os))
    ensures (forall o <- os :: o.number != OSCORE) ==> WithoutOscore(os) == os
  {
    hide Numbers;
    if os == [] {
      NumbersCons([], []);
    } else {
      var o, rest := os[0], WithoutOscore(os[1..]);
      WithoutOscoreNumbers(os[1..]);
      NumbersCons([o], rest);
      assert os == [o] + os[1..];
      assert WithoutOscore(os) == if o.number != OSCORE then [o] + rest else [] + rest;
      assert [] + rest == rest;
    }
  }

  lemma NumbersCons(front: seq<CoapOption>, rest: seq<CoapOption>)
    requires |front| <= 1
    ensures Numbers(front + rest) == (if front == [] then [] else [front[0].number]) + Numbers(rest)
    ensures Numbers([]) == []
  {
  }

  lemma OscoreIsAmong(us: seq<CoapOption>, value: Value)
    ensures var w, k := WithOscore(us, value), OscorePosition(us);
            && |w| == |us| + 1 && w[k].number == OSCORE && w[k].value == value
            && (exists o <- w :: o.number == OSCORE)
            && SameContent(w[..k] + w[k + 1..], us)
  {
    hide *;
    var k, w := OscorePosition(us), WithOscore(us, value);
    var all := Inserted(us, value, k);
    WithOscoreIs(us, value);
    RebaseContent(all, 0);
    InsertedContent(us, value, k);
    ContentWithout(w, all, k);
    assert w[k] in w;
  }

  lemma WithOscoreIs(us: seq<CoapOption>, value: Value)
    ensures WithOscore(us, value) == Rebase(Inserted(us, value, OscorePosition(us)), 0)
  {
  }

  lemma InsertedContent(us: seq<CoapOption>, value: Value, k: nat)
    requires k <= |us|
    ensures var all := Inserted(us, value, k);
            all[k].number == OSCORE && all[k].value == value && all[..k] + all[k + 1..] == us
  {
  }

  lemma ContentWithout(a: seq<CoapOption>, b: seq<CoapOption>, k: nat)
    requires SameContent(a, b) && k < |a|
    ensures |a| == |b| && a[k].number == b[k].number && a[k].value == b[k].value
    ensures SameContent(a[..k] + a[k + 1..], b[..k] + b[k + 1..])
  {
  }

  /** No number in the array to be sorted is that of the OSCORE option. */
  lemma NoOscoreToSort(us: seq<CoapOption>, es: seq<CoapOption>)
    requires exists o <- us :: o.number == OSCORE
    requires forall o <- es :: o.number != OSCORE
    ensures OSCORE !in Sort(NumbersToSort(us, es))
  {
    WithoutOscoreNumbers(us);
    WithoutOscoreNumbers(es);
    var numbers := NumbersToSort(us, es);
    SortCorrect(numbers);
    assert OSCORE !in multiset(numbers);
    assert OSCORE !in multiset(Sort(numbers));
  }

  // ----- what a merge can give -----

  /** Over sorted numbers the walk only gives options whose numbers are the exact running sums. */
  lemma {:induction false} WalkIsNumbered(sorted: bytes, us: seq<CoapOption>, es: seq<CoapOption>, sum: byte, room: nat)
    requires Sorted(sorted) && (sorted != [] ==> sum <= sorted[0])
    ensures var r := Walk(sorted, us, es, sum, room); r.Ok? ==> Numbered(r.value, sum)
  {
    if sorted == [] || us == [] {
      return;
    }
    WalkStep(sorted, us, es, sum, room);
    var n, rest := sorted[0], sorted[1..];
    TailSorted(sorted);
    assert rest != [] ==> n <= rest[0];
    if us[0].number == n {
      if room > 0 {
        WalkIsNumbered(rest, us[1..], es, n, room - 1);
        OneMoreNumbered(us[0], n, sum, Walk(rest, us[1..], es, n, room - 1));
      }
    } else if es != [] && es[0].number == n {
      if room > 0 {
        WalkIsNumbered(rest, us, es[1..], n, room - 1);
        OneMoreNumbered(es[0], n, sum, Walk(rest, us, es[1..], n, room - 1));
      }
    } else if es != [] {
      WalkIsNumbered(rest, us, es, sum, room);
    }
    hide *;
  }

  lemma OneMoreNumbered(o: CoapOption, n: byte, sum: byte, r: Result<seq<CoapOption>>)
    requires o.number == n && sum <= n && (r.Ok? ==> Numbered(r.value, n))
    ensures var all := Prepend([o.(delta := U16(n - sum))], r); all.Ok? ==> Numbered(all.value, sum)
  {
    if r.Ok? {
      var all := [o.(delta := U16(n - sum))] + r.value;
      assert all[1..] == r.value;
    }
  }

  /** Whatever lists are merged, the result's numbers are the exact running sums. */
  lemma MergeIsNumbered(us: seq<CoapOption>, es: seq<CoapOption>)
    requires exists o <- us :: o.number == OSCORE
    ensures Merge(us, es).Ok? ==> Numbered(Merge(us, es).value, 0)
  {
    SortCorrect(NumbersToSort(us, es));
    WalkIsNumbered(Sort(NumbersToSort(us, es)), us, es, 0, MAX_OPTION_COUNT);
    hide *;
    MergeIsWalk(us, es);
  }

  /**
   * Splitting, inserting the OSCORE option, sorting and merging gives back the original list,
   * repeated options in their order, exactly when the numbers are the exact running sums, all
   * below 256, and no option is lost by the merge.
   */
  lemma SplitMergeIdentity(os: seq<CoapOption>, value: Value)
    requires |os| <= MAX_OPTION_COUNT
    ensures var parts := Split(os, 0, 0, 0);
            var us := WithOscore(parts.u, value);
            (exists o <- us :: o.number == OSCORE)
            && (Merge(us, parts.e) == Ok(os) <==> Numbered(os, 0) && Mergeable(os))
  {
    hide *;
    var parts := Split(os, 0, 0, 0);
    OscoreIsAmong(parts.u, value);
    if Numbered(os, 0) {
      SplitIsRebase(os, 0, 0, 0);
      if Mergeable(os) {
        MergeRestores(os, value);
      } else {
        MergeLoses(os, value);
      }
    } else {
      MergeIsNumbered(WithOscore(parts.u, value), parts.e);
    }
  }

  /** An option numbered 258: the parser stores 2, and the merge gives back the option 2. */
  lemma NumberAbove255(value: Value, oscore: Value)
    ensures var os := [CoapOption(258, value, 2)];
            var parts := Split(os, 0, 0, 0);
            var us := WithOscore(parts.u, oscore);
            && WellNumbered(os, 0) && Mergeable(os) && parts.e == os && parts.u == []
            && (exists o <- us :: o.number == OSCORE)
            && Merge(us, parts.e) == Ok([CoapOption(2, value, 2)])
  {
    var o, w := CoapOption(258, value, 2), CoapOption(9, oscore, OSCORE);
    hide Split, WithOscore, Merge;
    SplitOfOne(o);
    OscoreAlone(oscore);
    assert [o][1..] == [];
    assert w in [w];
    MergeOfOne(w, o);
  }

  lemma SplitOfOne(o: CoapOption)
    requires o.delta == 258 && o.number == 2
    ensures Split([o], 0, 0, 0).e == [o] && Split([o], 0, 0, 0).u == []
  {
    assert [o][1..] == [] && [o] + [] == [o];
  }

  lemma OscoreAlone(oscore: Value)
    ensures WithOscore([], oscore) == [CoapOption(9, oscore, OSCORE)]
  {
    assert Inserted([], oscore, 0) == [CoapOption(0, oscore, OSCORE)];
  }

  lemma MergeOfOne(w: CoapOption, o: CoapOption)
    requires w.number == OSCORE && o.number == 2
    ensures (exists x <- [w] :: x.number == OSCORE) && Merge([w], [o]) == Ok([o.(delta := 2)])
  {
    assert w in [w] && WithoutOscore([w]) == [] && Numbers([o]) == [2];
    var numbers := NumbersToSort([w], [o]);
    assert numbers == [2];
    assert Sort([2]) == [2] by { assert [2][1..] == []; }
    MergeIsWalk([w], [o]);
    hide Merge, NumbersToSort, Sort;
    WalkStep([2], [w], [o], 0, MAX_OPTION_COUNT);
    WalkNothing([w], [], 2, MAX_OPTION_COUNT - 1);
    assert [2][1..] == [] && [o][1..] == [];
    hide Walk;
    assert [o.(delta := 2)] + [] == [o.(delta := 2)];
  }

  // ----- what a merge takes from the outer list -----

  /** The first `n` options of `c` are, deltas aside, those of `us`. */
  ghost predicate TakenFrom(c: seq<CoapOption>, us: seq<CoapOption>, n: nat) {
    n <= |us| && forall j :: 0 <= j < n && j < |c| ==> c[j].number == us[j].number && c[j].value == us[j].value
  }

  /** The outer options of the result are taken from the front of the outer list, in order. */
  lemma {:induction false} WalkTakesFront(sorted: bytes, us: seq<CoapOption>, es: seq<CoapOption>, sum: byte, room: nat,
      n: nat)
    requires n <= |us| && (forall i :: 0 <= i < n ==> !IsClassE(us[i].number)) && (forall o <- es :: IsClassE(o.number))
    ensures var r := Walk(sorted, us, es, sum, room);
            r.Ok? ==> TakenFrom(OfClass(r.value, false), us, n)
  {
    hide *;
    if sorted == [] || us == [] || n == 0 {
      NothingTaken(sorted, us, es, sum, room, n);
      return;
    }
    WalkStep(sorted, us, es, sum, room);
    var x, rest := sorted[0], sorted[1..];
    if us[0].number == x {
      assert !IsClassE(us[0].number);
      if room > 0 {
        var more := Walk(rest, us[1..], es, x, room - 1);
        WalkTakesFront(rest, us[1..], es, x, room - 1, n - 1);
        OneMoreOuter(us[0].(delta := U16(x - sum)), more);
        if more.Ok? {
          OneMoreTaken(us[0].(delta := U16(x - sum)), OfClass(more.value, false), us, n);
        }
      }
    } else if es != [] && es[0].number == x {
      if room > 0 {
        WalkTakesFront(rest, us, es[1..], x, room - 1, n);
        OneMoreOuter(es[0].(delta := U16(x - sum)), Walk(rest, us, es[1..], x, room - 1));
      }
    } else if es != [] {
      WalkTakesFront(rest, us, es, sum, room, n);
    }
  }

  lemma NothingTaken(sorted: bytes, us: seq<CoapOption>, es: seq<CoapOption>, sum: byte, room: nat, n: nat)
    requires n <= |us| && (sorted == [] || us == [] || n == 0)
    ensures var r := Walk(sorted, us, es, sum, room);
            r.Ok? ==> TakenFrom(OfClass(r.value, false), us, n)
  {
  }

  lemma OneMoreTaken(o: CoapOption, c: seq<CoapOption>, us: seq<CoapOption>, n: nat)
    requires n > 0 && us != [] && TakenFrom(c, us[1..], n - 1) && o.number == us[0].number && o.value == us[0].value
    ensures TakenFrom([o] + c, us, n)
  {
  }

  lemma OneMoreOuter(o: CoapOption, r: Result<seq<CoapOption>>)
    ensures var all := Prepend([o], r);
            all.Ok? <==> r.Ok?
    ensures r.Ok? ==>
              OfClass(Prepend([o], r).value, false)
              == if IsClassE(o.number) then OfClass(r.value, false) else [o] + OfClass(r.value, false)
  {
    hide IsClassE;
    if r.Ok? {
      assert ([o] + r.value)[1..] == r.value;
      assert [] + OfClass(r.value, false) == OfClass(r.value, false);
    }
  }

  /** And from in front of any OSCORE option in it. */
  lemma {:induction false} WalkTakesFew(sorted: bytes, us: seq<CoapOption>, es: seq<CoapOption>, sum: byte, room: nat,
      k: nat)
    requires OSCORE !in sorted && k < |us| && us[k].number == OSCORE && (forall o <- es :: IsClassE(o.number))
    ensures var r := Walk(sorted, us, es, sum, room); r.Ok? ==> |OfClass(r.value, false)| <= k
  {
    if sorted == [] {
      return;
    }
    WalkStep(sorted, us, es, sum, room);
    var x, rest := sorted[0], sorted[1..];
    hide Walk, OfClass, IsClassE;
    if us[0].number == x {
      if room > 0 {
        WalkTakesFew(rest, us[1..], es, x, room - 1, k - 1);
        OneMoreOuter(us[0].(delta := U16(x - sum)), Walk(rest, us[1..], es, x, room - 1));
      }
    } else if es != [] && es[0].number == x {
      if room > 0 {
        WalkTakesFew(rest, us, es[1..], x, room - 1, k);
        OneMoreOuter(es[0].(delta := U16(x - sum)), Walk(rest, us, es[1..], x, room - 1));
      }
    } else if es != [] {
      WalkTakesFew(rest, us, es, sum, room, k);
    }
  }

  /** With outer options below it only, the OSCORE option comes last. */
  lemma OscoreComesLast(us: seq<CoapOption>, value: Value)
    requires forall o <- us :: o.number < OSCORE
    ensures var w := WithOscore(us, value);
            && |w| == |us| + 1 && w[|us|].number == OSCORE && w[|us|].value == value && SameContent(w[..|us|], us)
            && (forall o <- w[..|us|] :: o.number != OSCORE)
            && (exists o <- w :: o.number == OSCORE)
            && WithoutOscore(w) == w[..|us|]
  {
    OscoreIsAmong(us, value);
    var w := WithOscore(us, value);
    assert OscorePosition(us) == |us|;
    hide WithOscore, OscorePosition;
    var front, last := w[..|us|], w[|us|];
    assert front + w[|us| + 1..] == front && w == front + [last];
    forall o <- front ensures o.number != OSCORE {
      var i :| 0 <= i < |front| && front[i] == o;
      assert us[i] in us;
    }
    hide SameContent;
    WithoutOscoreAppend(front, [last]);
    WithoutOscoreNumbers(front);
    assert WithoutOscore([last]) == [];
    hide WithoutOscore;
    assert front + [] == front;
  }

  lemma OuterBelowOscore(os: seq<CoapOption>)
    requires Mergeable(os)
    ensures forall o <- Rebase(OfClass(os, false), 0) :: o.number < OSCORE
  {
    var u := OfClass(os, false);
    OfClassMembers(os, false);
    RebaseContent(u, 0);
    forall o <- Rebase(u, 0) ensures o.number < OSCORE {
      var i :| 0 <= i < |u| && Rebase(u, 0)[i] == o;
      assert u[i] in u && u[i].number == o.number;
    }
  }

  lemma ContentTransitive(a: seq<CoapOption>, b: seq<CoapOption>, c: seq<CoapOption>)
    requires SameContent(a, b) && SameContent(b, c)
    ensures SameContent(a, c) && |a| == |b| == |c|
  {
  }

  /** With all outer options below the OSCORE option, the sorted numbers are those of the packet. */
  lemma SortedNumbers(os: seq<CoapOption>, us: seq<CoapOption>, es: seq<CoapOption>)
    requires Numbered(os, 0)
    requires exists o <- us :: o.number == OSCORE
    requires |us| > 0 && WithoutOscore(us) == us[..|us| - 1]
    requires SameContent(us[..|us| - 1], OfClass(os, false)) && SameContent(es, OfClass(os, true))
    ensures Sort(NumbersToSort(us, es)) == Numbers(os)
  {
    var numbers := NumbersToSort(us, es);
    NumbersOfContent(us[..|us| - 1], OfClass(os, false));
    NumbersOfContent(es, OfClass(os, true));
    assert numbers == Numbers(OfClass(os, false)) + Numbers(OfClass(os, true));
    hide *;
    OfClassSizes(os);
    NumberedIsSorted(os, 0);
    SortCorrect(numbers);
    SortedUnique(Sort(numbers), Numbers(os));
  }

  lemma MergeIsWalk(us: seq<CoapOption>, es: seq<CoapOption>)
    requires exists o <- us :: o.number == OSCORE
    ensures Merge(us, es) == Walk(Sort(NumbersToSort(us, es)), us, es, 0, MAX_OPTION_COUNT)
  {
  }

  lemma ListsAre(os: seq<CoapOption>, us: seq<CoapOption>, es: seq<CoapOption>)
    requires SameContent(es, OfClass(os, true))
    requires |us| > 0 && us[|us| - 1].number == OSCORE && SameContent(us[..|us| - 1], OfClass(os, false))
    ensures ListsOf(os, us, es)
  {
  }

  lemma MergeRestores(os: seq<CoapOption>, value: Value)
    requires Numbered(os, 0) && |os| <= MAX_OPTION_COUNT && Mergeable(os)
    ensures var es, us := Rebase(OfClass(os, true), 0), WithOscore(Rebase(OfClass(os, false), 0), value);
            (exists o <- us :: o.number == OSCORE) && Merge(us, es) == Ok(os)
  {
    hide *;
    var e, u := OfClass(os, true), OfClass(os, false);
    var es, ru := Rebase(e, 0), Rebase(u, 0);
    var us := WithOscore(ru, value);
    RebaseContent(e, 0);
    RebaseContent(u, 0);
    OuterBelowOscore(os);
    OscoreComesLast(ru, value);
    ContentTransitive(us[..|ru|], ru, u);
    SortedNumbers(os, us, es);
    ListsAre(os, us, es);
    WalkRestores(os, us, es, 0, MAX_OPTION_COUNT);
    MergeIsWalk(us, es);
  }

  /** Of the options that the merge loses, one lies at or behind an OSCORE option. */
  lemma LostBehindOscore(us: seq<CoapOption>, value: Value, j: nat)
    requires j < |us| && us[j].number >= OSCORE
    ensures var w := WithOscore(us, value); exists k :: 0 <= k < |us| && k < |w| && w[k].number == OSCORE
  {
    OscoreIsAmong(us, value);
    var w, place := WithOscore(us, value), OscorePosition(us);
    if j < place {
      assert w[j] == (w[..place] + w[place + 1..])[j];
      assert w[j].number == OSCORE;
    } else {
      assert w[place].number == OSCORE;
    }
  }

  lemma MergeLoses(os: seq<CoapOption>, value: Value)
    requires Numbered(os, 0) && !Mergeable(os)
    ensures var es, us := Rebase(OfClass(os, true), 0), WithOscore(Rebase(OfClass(os, false), 0), value);
            (exists o <- us :: o.number == OSCORE) && Merge(us, es) != Ok(os)
  {
    hide *;
    var e, u := OfClass(os, true), OfClass(os, false);
    var ru := Rebase(u, 0);
    var es, us := Rebase(e, 0), WithOscore(ru, value);
    OscoreIsAmong(ru, value);
    OfClassSizes(os);
    EncryptedNotOscore(os);
    NoOscoreToSort(us, es);
    var j := LostOption(os);
    LostBehindOscore(ru, value, j);
    var k :| 0 <= k < |ru| && k < |us| && us[k].number == OSCORE;
    WalkStops(Sort(NumbersToSort(us, es)), us, es, 0, MAX_OPTION_COUNT, k);
    MergeIsWalk(us, es);
  }

  lemma LostOption(os: seq<CoapOption>) returns (j: nat)
    requires !Mergeable(os)
    ensures var ru := Rebase(OfClass(os, false), 0); j < |ru| && ru[j].number >= OSCORE
  {
    var u := OfClass(os, false);
    OfClassMembers(os, false);
    RebaseContent(u, 0);
    var lost :| lost in os && !IsClassE(lost.number) && lost.number >= OSCORE;
    j :| 0 <= j < |u| && u[j] == lost;
  }

  lemma EncryptedNotOscore(os: seq<CoapOption>)
    ensures forall o <- Rebase(OfClass(os, true), 0) :: o.number != OSCORE
  {
    var e := OfClass(os, true);
    OfClassMembers(os, true);
    RebaseContent(e, 0);
    forall o <- Rebase(e, 0) ensures o.number != OSCORE {
      var i :| 0 <= i < |e| && Rebase(e, 0)[i] == o;
      assert e[i] in e;
    }
  }
}
