/** Work-ticket code (wtcode) assignment: the dedicated/purchased split, the
    removal of purchased rows misfiled among the dedicated ones, the dotted
    code arithmetic, the classification of two consecutive drawing codes,
    and the driver getwtcode that numbers every row. */
module WtData {
  import opened Text
  import opened Bom

  // ===========================================================================
  // Dedicated and purchased parts

  /** is_comp_code: a row belongs to the component when its code starts with
      the base code (the first row's code). */
  predicate IsCompCode(base: string, code: string) {
    StartsWith(code, base)
  }

  /** How many rows split_datas puts in the dedicated part: up to and
      including the last row whose code starts with base, and 1 when there is
      no such row (the backward loop then ends with its variable at 0). */
  function Cut(base: string, datas: seq<Row>): (n: nat)
    requires |datas| > 0
    ensures 1 <= n <= |datas|
    ensures forall j :: n <= j < |datas| ==> !IsCompCode(base, datas[j].code)
    ensures IsCompCode(base, datas[n - 1].code) || n == 1
    ensures IsCompCode(base, datas[n - 1].code) <==>
              exists j :: 0 <= j < |datas| && IsCompCode(base, datas[j].code)
    decreases |datas|
  {
    if |datas| == 1 || IsCompCode(base, datas[|datas| - 1].code) then |datas|
    else
      var n := Cut(base, datas[..|datas| - 1]);
      assert forall j :: 0 <= j < |datas| - 1 ==> datas[..|datas| - 1][j] == datas[j];
      n
  }

  /** split_datas: None stands for the UnboundLocalError raised on an empty
      list. Otherwise the dedicated part ends at the last row whose code
      starts with base, and no purchased row's code does. */
  method SplitDatas(base: string, datas: seq<Row>) returns (r: Option<(seq<Row>, seq<Row>)>)
    ensures r.None? <==> |datas| == 0
    ensures r.Some? ==> r.value.0 + r.value.1 == datas && |r.value.0| >= 1
    ensures r.Some? ==> forall j :: 0 <= j < |r.value.1| ==> !IsCompCode(base, r.value.1[j].code)
    ensures r.Some? && (exists j :: 0 <= j < |datas| && IsCompCode(base, datas[j].code)) ==>
              IsCompCode(base, r.value.0[|r.value.0| - 1].code)
    ensures r.Some? ==> |r.value.0| == Cut(base, datas)
  {
    if |datas| == 0 {
      return None;
    }
    var i := |datas| - 1;
    while i > 0 && !IsCompCode(base, datas[i].code)
      invariant 0 <= i < |datas|
      invariant forall j :: i < j < |datas| ==> !IsCompCode(base, datas[j].code)
    {
      i := i - 1;
    }
    var n := Cut(base, datas);
    assert datas[..i + 1] + datas[i + 1..] == datas;
    return Some((datas[..i + 1], datas[i + 1..]));
  }

  /** The rows of a list whose code starts with base, in their order. */
  function Kept(base: string, rows: seq<Row>): (r: seq<Row>)
    ensures |r| <= |rows|
    decreases |rows|
  {
    if rows == [] then []
    else Kept(base, rows[..|rows| - 1]) +
         (if IsCompCode(base, rows[|rows| - 1].code) then [rows[|rows| - 1]] else [])
  }

  /** One message per row of a list whose code does not start with base. */
  function Removed(base: string, rows: seq<Row>): seq<Msg>
    decreases |rows|
  {
    if rows == [] then []
    else Removed(base, rows[..|rows| - 1]) +
         (if IsCompCode(base, rows[|rows| - 1].code) then []
          else [PurchasedInDedicated(rows[|rows| - 1].code, rows[|rows| - 1].spec)])
  }

  lemma {:induction false} KeptConcat(base: string, a: seq<Row>, b: seq<Row>)
    ensures Kept(base, a + b) == Kept(base, a) + Kept(base, b)
    decreases |b|
  {
    if b == [] {
      assert a + b == a;
    } else {
      assert (a + b)[..|a + b| - 1] == a + b[..|b| - 1];
      KeptConcat(base, a, b[..|b| - 1]);
    }
  }

  lemma {:induction false} KeptAllComp(base: string, rows: seq<Row>)
    requires forall k :: 0 <= k < |rows| ==> IsCompCode(base, rows[k].code)
    ensures Kept(base, rows) == rows
    decreases |rows|
  {
    if rows != [] {
      KeptAllComp(base, rows[..|rows| - 1]);
    }
  }

  /** What del_dedicated keeps and reports: every kept row starts with base,
      every row that started with base is kept, the kept rows keep their
      relative order (Kept distributes over concatenation), and there is one
      message per row removed. */
  lemma {:induction false} KeptAndRemoved(base: string, rows: seq<Row>)
    ensures forall k :: 0 <= k < |Kept(base, rows)| ==> IsCompCode(base, Kept(base, rows)[k].code)
    ensures forall i :: 0 <= i < |rows| && IsCompCode(base, rows[i].code) ==> rows[i] in Kept(base, rows)
    ensures forall a, b :: rows == a + b ==> Kept(base, rows) == Kept(base, a) + Kept(base, b)
    ensures |Kept(base, rows)| + |Removed(base, rows)| == |rows|
    decreases |rows|
  {
    forall a, b | rows == a + b ensures Kept(base, rows) == Kept(base, a) + Kept(base, b) {
      KeptConcat(base, a, b);
    }
    if rows != [] {
      KeptAndRemoved(base, rows[..|rows| - 1]);
      var init := Kept(base, rows[..|rows| - 1]);
      forall k | 0 <= k < |Kept(base, rows)| ensures IsCompCode(base, Kept(base, rows)[k].code) {
        if k < |init| { assert Kept(base, rows)[k] == init[k]; }
      }
      forall i | 0 <= i < |rows| && IsCompCode(base, rows[i].code) ensures rows[i] in Kept(base, rows) {
        if i < |rows| - 1 {
          assert rows[..|rows| - 1][i] == rows[i];
        }
      }
    }
  }

  /** Popping the row at k, when rows lo..k-1 start with base and row k does
      not, extends the filtered suffix down to lo. */
  lemma PopStep(base: string, d: seq<Row>, lo: nat, k: nat)
    requires lo <= k < |d|
    requires forall i :: lo <= i < k ==> IsCompCode(base, d[i].code)
    requires !IsCompCode(base, d[k].code)
    ensures d[..k] + Kept(base, d[k + 1..]) == d[..lo] + Kept(base, d[lo..])
  {
    assert d[lo..] == d[lo..k] + [d[k]] + d[k + 1..];
    KeptConcat(base, d[lo..k] + [d[k]], d[k + 1..]);
    KeptConcat(base, d[lo..k], [d[k]]);
    assert Kept(base, [d[k]]) == Kept(base, []) + [];
    KeptAllComp(base, d[lo..k]);
    assert d[..k] == d[..lo] + d[lo..k];
  }

  /** Strictly increasing indices of exactly the rows of d whose code does
      not start with base. */
  predicate Deletions(base: string, d: seq<Row>, del: seq<nat>) {
    && (forall t :: 0 <= t < |del| ==> del[t] < |d| && !IsCompCode(base, d[del[t]].code))
    && (forall t, u :: 0 <= t < u < |del| ==> del[t] < del[u])
    && (forall k :: 0 <= k < |d| && !IsCompCode(base, d[k].code) ==> k in del)
  }

  /** The first loop of del_dedicated keeps its index list exact. */
  lemma DeletionsStep(base: string, d: seq<Row>, del: seq<nat>, j: nat)
    requires j < |d| && Deletions(base, d[..j], del)
    ensures Deletions(base, d[..j + 1], if IsCompCode(base, d[j].code) then del else del + [j])
  {
    var del' := if IsCompCode(base, d[j].code) then del else del + [j];
    forall k | 0 <= k < j + 1 && !IsCompCode(base, d[..j + 1][k].code) ensures k in del' {
      if k < j {
        assert d[..j][k] == d[..j + 1][k];
        assert k in del;
      }
    }
  }

  /** The position just after the t-th deletion, 0 before the first. */
  function After(del: seq<nat>, t: nat): nat
    requires t <= |del|
  {
    if t == 0 then 0 else del[t - 1] + 1
  }

  /** Between two consecutive deletions (or after the last) every row starts
      with base. */
  lemma BetweenDeletions(base: string, d: seq<Row>, del: seq<nat>, t: nat)
    requires Deletions(base, d, del) && t <= |del|
    ensures After(del, t) <= (if t == |del| then |d| else del[t])
    ensures forall i :: After(del, t) <= i < (if t == |del| then |d| else del[t]) ==> IsCompCode(base, d[i].code)
  {
    forall i | After(del, t) <= i < (if t == |del| then |d| else del[t])
      ensures IsCompCode(base, d[i].code)
    {
      forall u | 0 <= u < |del| ensures del[u] != i {
        if u < t {
          assert del[u] <= del[t - 1];
        } else {
          assert del[t] <= del[u];
        }
      }
      assert i !in del;
    }
  }

  /** Before any pop, the rows after the last deletion are all kept. */
  lemma PopStart(base: string, d: seq<Row>, del: seq<nat>)
    requires Deletions(base, d, del)
    ensures After(del, |del|) <= |d|
    ensures d == d[..After(del, |del|)] + Kept(base, d[After(del, |del|)..])
  {
    BetweenDeletions(base, d, del, |del|);
    KeptAllComp(base, d[After(del, |del|)..]);
    assert d == d[..After(del, |del|)] + d[After(del, |del|)..];
  }

  /** Popping the t-th deletion extends the kept suffix down to the previous
      deletion. */
  lemma PopNext(base: string, d: seq<Row>, del: seq<nat>, t: nat)
    requires Deletions(base, d, del) && 1 <= t <= |del|
    ensures After(del, t - 1) <= del[t - 1] < |d|
    ensures d[..del[t - 1]] + Kept(base, d[del[t - 1] + 1..]) ==
            d[..After(del, t - 1)] + Kept(base, d[After(del, t - 1)..])
  {
    BetweenDeletions(base, d, del, t - 1);
    PopStep(base, d, After(del, t - 1), del[t - 1]);
  }

  /** One pop of the second loop of del_dedicated, from the highest listed
      index down: removing the t-th listed row from the list kept so far
      extends the cleaned suffix down to the (t-1)-th. */
  lemma PopOne(base: string, d: seq<Row>, del: seq<nat>, t: nat, kept: seq<Row>)
    requires Deletions(base, d, del) && 1 <= t <= |del|
    requires PopInvariant(base, d, del, t, kept)
    ensures del[t - 1] < |kept|
    ensures PopInvariant(base, d, del, t - 1, PopAt(kept, del[t - 1]))
  {
    var k := del[t - 1];
    PopNext(base, d, del, t);
    var rest := Kept(base, d[k + 1..]);
    assert kept == d[..k + 1] + rest;
    assert kept[..k] == d[..k];
    assert kept[k + 1..] == rest;
  }

  /** list.pop(k), as a value: the list without its k-th element. */
  function PopAt(s: seq<Row>, k: nat): (r: seq<Row>)
    requires k < |s|
    ensures |r| == |s| - 1
  {
    s[..k] + s[k + 1..]
  }

  /** While the second loop of del_dedicated runs with t deletions still to
      pop: the rows up to the t-th deletion are untouched and the suffix
      after it is already cleaned. */
  predicate PopInvariant(base: string, d: seq<Row>, del: seq<nat>, t: nat, kept: seq<Row>) {
    t <= |del| && After(del, t) <= |d| && kept == d[..After(del, t)] + Kept(base, d[After(del, t)..])
  }

  /** The second loop of del_dedicated: pop the listed rows, the highest
      index first, so that the lower indices stay valid. */
  method PopDeletions(base: string, dedicated: seq<Row>, delList: seq<nat>) returns (kept: seq<Row>)
    requires Deletions(base, dedicated, delList)
    ensures kept == Kept(base, dedicated)
  {
    PopStart(base, dedicated, delList);
    kept := PopLoop(base, dedicated, delList, |delList|, dedicated);
    assert dedicated[0..] == dedicated;
  }

  /** The loop of PopDeletions, from t0 deletions still to pop down to none. */
  method PopLoop(base: string, dedicated: seq<Row>, delList: seq<nat>, t0: nat, kept0: seq<Row>) returns (kept: seq<Row>)
    requires Deletions(base, dedicated, delList) && PopInvariant(base, dedicated, delList, t0, kept0)
    ensures PopInvariant(base, dedicated, delList, 0, kept)
  {
    kept := kept0;
    var t: nat := t0;
    while t > 0
      invariant PopInvariant(base, dedicated, delList, t, kept)
    {
      PopOne(base, dedicated, delList, t, kept);
      kept, t := PopAt(kept, delList[t - 1]), t - 1;
    }
  }

  /** del_dedicated: collect the indices of the rows whose code does not start
      with base, with a message for each, then pop those rows. */
  method DelDedicated(base: string, dedicated: seq<Row>) returns (kept: seq<Row>, infoList: seq<Msg>)
    ensures kept == Kept(base, dedicated)
    ensures infoList == Removed(base, dedicated)
  {
    var delList: seq<nat> := [];
    infoList := [];
    for j := 0 to |dedicated|
      invariant Deletions(base, dedicated[..j], delList)
      invariant infoList == Removed(base, dedicated[..j])
    {
      assert dedicated[..j + 1][..j] == dedicated[..j];
      DeletionsStep(base, dedicated, delList, j);
      if !IsCompCode(base, dedicated[j].code) {
        infoList := infoList + [PurchasedInDedicated(dedicated[j].code, dedicated[j].spec)];
        delList := delList + [j];
      }
    }
    assert dedicated[..|dedicated|] == dedicated;
    kept := PopDeletions(base, dedicated, delList);
  }

  // ===========================================================================
  // Code normalisation and comparison

  /** standard: strip surrounding whitespace and read "-" and "/" as ".".
      (Its base_code parameter is unused by the source.) */
  function Standard(code: string): string {
    ReplaceChar(ReplaceChar(Strip(code), '-', Dot), '/', Dot)
  }

  /** A normalised code has no "-" or "/" left, and keeps the length of the
      stripped code. */
  lemma StandardNoSeparators(code: string)
    ensures '-' !in Standard(code) && '/' !in Standard(code)
    ensures |Standard(code)| == |Strip(code)|
  {
    var t := ReplaceChar(Strip(code), '-', Dot);
    ReplaceCharAt(Strip(code), '-', Dot);
    ReplaceCharAt(t, '/', Dot);
  }

  /** Normalising an already normalised code changes nothing. */
  lemma StandardIdempotent(code: string)
    ensures Standard(Standard(code)) == Standard(code)
  {
    var t := Strip(code);
    var u := ReplaceChar(t, '-', Dot);
    var s := Standard(code);
    StripEnds(code);
    ReplaceCharAt(t, '-', Dot);
    ReplaceCharAt(u, '/', Dot);
    StandardNoSeparators(code);
    assert s != [] ==> !IsSpace(s[0]) && !IsSpace(s[|s| - 1]);
    StripOfTrimmed(s);
    ReplaceCharAt(s, '-', Dot);
    assert ReplaceChar(s, '-', Dot) == s;
    ReplaceCharAt(s, '/', Dot);
    assert ReplaceChar(ReplaceChar(s, '-', Dot), '/', Dot) == s;
  }

  /** comp_list: at which position two segment lists first differ, capped at
      the shorter length; None stands for the UnboundLocalError an empty
      list raises. */
  method CompList(prevList: seq<string>, currList: seq<string>) returns (r: Option<nat>)
    ensures r.None? <==> |prevList| == 0 || |currList| == 0
    ensures r.Some? ==> r.value <= |prevList| && r.value <= |currList|
    ensures r.Some? ==> prevList[..r.value] == currList[..r.value]
    ensures r.Some? && r.value < |prevList| && r.value < |currList| ==> prevList[r.value] != currList[r.value]
  {
    var n := if |prevList| < |currList| then |prevList| else |currList|;
    if n == 0 {
      return None;
    }
    for index := 0 to n
      invariant prevList[..index] == currList[..index]
    {
      if prevList[index] != currList[index] {
        return Some(index);
      }
      assert prevList[..index + 1] == prevList[..index] + [prevList[index]];
      assert currList[..index + 1] == currList[..index] + [currList[index]];
    }
    return Some(n);
  }

  /** The first maximal run of ASCII decimal digits at the start of s. */
  function DigitRun(s: string): (r: string)
    ensures AllDigits(r) && |r| <= |s| && r == s[..|r|]
    ensures |r| == |s| || !IsDigit(s[|r|])
  {
    if s != [] && IsDigit(s[0]) then [s[0]] + DigitRun(s[1..]) else []
  }

  /** myint: int() of the first run of ASCII decimal digits, and 0 when the
      string has no such digit (the IndexError is caught). Other Unicode
      decimal digits, which \d also matches, are not digits here. */
  function MyInt(s: string): nat {
    if s == [] then 0
    else if IsDigit(s[0]) then DigitsValue(DigitRun(s))
    else MyInt(s[1..])
  }

  lemma {:induction false} MyIntFirstRun(s: string, i: nat)
    requires i < |s| && IsDigit(s[i])
    requires forall j :: 0 <= j < i ==> !IsDigit(s[j])
    ensures MyInt(s) == DigitsValue(DigitRun(s[i..]))
    decreases i
  {
    if i > 0 {
      assert s[1..][i - 1..] == s[i..];
      MyIntFirstRun(s[1..], i - 1);
    }
  }

  lemma {:induction false} MyIntNoDigit(s: string)
    requires forall j :: 0 <= j < |s| ==> !IsDigit(s[j])
    ensures MyInt(s) == 0
    decreases |s|
  {
    if s != [] {
      MyIntNoDigit(s[1..]);
    }
  }

  lemma {:induction false} DigitRunOfDigits(s: string)
    requires AllDigits(s)
    ensures DigitRun(s) == s
    decreases |s|
  {
    if s != [] {
      DigitRunOfDigits(s[1..]);
    }
  }

  /** myint reads back what str() writes. */
  lemma MyIntOfNatToStr(n: nat)
    ensures MyInt(NatToStr(n)) == n
  {
    var s := NatToStr(n);
    DigitRunOfDigits(s);
    DigitsValueOfNatToStr(n);
  }

  // ===========================================================================
  // Dotted code arithmetic

  /** str(myint(segment) + 1): the segment after this one. */
  function Inc(segment: string): (r: string)
    ensures Dot !in r
  {
    NatToStr(MyInt(segment) + 1)
  }

  lemma IncOfNatToStr(n: nat)
    ensures Inc(NatToStr(n)) == NatToStr(n + 1)
  {
    MyIntOfNatToStr(n);
  }

  /** get_child_code. */
  function ChildCode(code: string): string {
    code + ".1"
  }

  /** get_next_peer_code. */
  function NextPeerCode(code: string): string {
    var p := Split(code);
    Join(p[..|p| - 1]) + [Dot] + Inc(p[|p| - 1])
  }

  /** get_next_up_code(code, index): Python's code_list[-index] and
      code_list[:-index]; None stands for the IndexError when index exceeds
      the number of segments. */
  function NextUpCode(code: string, index: nat): Option<string> {
    var p := Split(code);
    if index > |p| then None
    else
      var k := if index == 0 then 0 else |p| - index;
      Some(Join(p[..k]) + [Dot] + Inc(p[k]))
  }

  /** get_first_buy_code: the first two segments, then the third advanced;
      None stands for the IndexError of a code with fewer than three. */
  function FirstBuyCode(code: string): Option<string> {
    var p := Split(code);
    if |p| < 3 then None else Some(Join(p[0..2]) + [Dot] + Inc(p[2]))
  }

  /** get_next_buy_code. */
  function NextBuyCode(code: string): string {
    var p := Split(code);
    Join(p[..|p| - 1] + [Inc(p[|p| - 1])])
  }

  lemma ChildCodeParts(code: string)
    ensures Split(ChildCode(code)) == Split(code) + ["1"]
  {
    assert ChildCode(code) == code + [Dot] + "1";
    SplitAppend(code, "1");
  }

  /** Joining kept segments and one new last segment, then splitting again,
      gives back exactly those segments. */
  lemma JoinThenSplit(kept: seq<string>, last: string)
    requires |kept| >= 1 && NoDots(kept) && Dot !in last
    ensures Join(kept) + [Dot] + last == Join(kept + [last])
    ensures Split(Join(kept) + [Dot] + last) == kept + [last]
  {
    JoinAppend(kept, last);
    SplitJoin(kept + [last]);
  }

  /** get_next_peer_code keeps every segment but the last and advances the
      last; on a one-segment code the result starts with a dot. */
  lemma NextPeerCodeParts(code: string)
    ensures var p := Split(code);
      |p| >= 2 ==> Split(NextPeerCode(code)) == p[..|p| - 1] + [Inc(p[|p| - 1])]
    ensures |Split(code)| == 1 ==> NextPeerCode(code) == [Dot] + Inc(code)
  {
    var p := Split(code);
    if |p| >= 2 {
      SplitNoDots(code);
      JoinThenSplit(p[..|p| - 1], Inc(p[|p| - 1]));
    } else {
      JoinSplit(code);
    }
  }

  /** get_next_buy_code keeps every segment but the last and advances the
      last; on a one-segment code it is just the advanced number, and on
      longer codes it agrees with get_next_peer_code. */
  lemma NextBuyCodeParts(code: string)
    ensures var p := Split(code);
      Split(NextBuyCode(code)) == p[..|p| - 1] + [Inc(p[|p| - 1])]
    ensures |Split(code)| == 1 ==> NextBuyCode(code) == Inc(code)
    ensures |Split(code)| >= 2 ==> NextBuyCode(code) == NextPeerCode(code)
  {
    var p := Split(code);
    if |p| >= 2 {
      SplitNoDots(code);
      JoinThenSplit(p[..|p| - 1], Inc(p[|p| - 1]));
    } else {
      JoinSplit(code);
      assert p[..0] + [Inc(p[0])] == [Inc(code)];
      SplitJoin([Inc(code)]);
    }
  }

  /** get_next_up_code(code, i) keeps the first len-i segments, advances
      segment len-i and drops the deeper ones; when len-i is 0 the result
      starts with a dot. */
  lemma NextUpCodeParts(code: string, index: nat)
    ensures NextUpCode(code, index).None? <==> index > |Split(code)|
    ensures var p := Split(code);
      1 <= index < |p| ==> Split(NextUpCode(code, index).value) == p[..|p| - index] + [Inc(p[|p| - index])]
    ensures var p := Split(code);
      index == |p| ==> NextUpCode(code, index) == Some([Dot] + Inc(p[0]))
  {
    var p := Split(code);
    if 1 <= index < |p| {
      SplitNoDots(code);
      JoinThenSplit(p[..|p| - index], Inc(p[|p| - index]));
    } else if index == |p| {
      assert p[..0] == [];
      assert Join(p[..0]) == [];
      assert Join(p[..0]) + [Dot] + Inc(p[0]) == [Dot] + Inc(p[0]);
    }
  }

  /** get_first_buy_code keeps the first two segments and advances the third,
      whatever the depth of the code. */
  lemma FirstBuyCodeParts(code: string)
    ensures FirstBuyCode(code).None? <==> |Split(code)| < 3
    ensures var p := Split(code);
      |p| >= 3 ==> Split(FirstBuyCode(code).value) == p[..2] + [Inc(p[2])]
  {
    var p := Split(code);
    if |p| >= 3 {
      assert p[0..2] == p[..2];
      SplitNoDots(code);
      JoinThenSplit(p[..2], Inc(p[2]));
    }
  }

  /** get_next_buy_code on "h.k" is "h.(k+1)". */
  lemma NextBuyCodeStep(h: string, k: nat)
    ensures NextBuyCode(h + [Dot] + NatToStr(k)) == h + [Dot] + NatToStr(k + 1)
  {
    var c := h + [Dot] + NatToStr(k);
    SplitAppend(h, NatToStr(k));
    var p := Split(c);
    assert p[..|p| - 1] == Split(h);
    IncOfNatToStr(k);
    JoinSplit(h);
    JoinAppend(Split(h), NatToStr(k + 1));
  }

  // ===========================================================================
  // Relation between consecutive codes

  /** The tags generate_wtcode returns: same, next, peer, some (here Several:
      several levels differ), child, down, upser, upgap. */
  datatype Relation = Same | Next | Peer | Several | Child | Down | Upser | Upgap

  /** When a tag describes two normalised codes: at equal depth, Same when the
      segments agree, Next or Peer when only the last differs (Next when it
      is the previous one plus one), Several when an earlier one differs; when
      deeper, Child exactly for the previous code plus ".1", else Down; when
      shallower, Upser exactly when the current code is the previous one cut
      to its depth with its last kept segment plus one, else Upgap. */
  predicate Classified(tag: Relation, prev: string, curr: string) {
    var a, b := Split(prev), Split(curr);
    match tag
    case Same => |a| == |b| && a == b
    case Next =>
      |a| == |b| && a[..|b| - 1] == b[..|b| - 1] && a[|a| - 1] != b[|b| - 1] && Inc(a[|a| - 1]) == b[|b| - 1]
    case Peer =>
      |a| == |b| && a[..|b| - 1] == b[..|b| - 1] && a[|a| - 1] != b[|b| - 1] && Inc(a[|a| - 1]) != b[|b| - 1]
    case Several => |a| == |b| && a[..|b| - 1] != b[..|b| - 1]
    case Child => |b| > |a| && curr == prev + ".1"
    case Down => |b| > |a| && curr != prev + ".1"
    case Upser => |b| < |a| && a[..|b| - 1] + [Inc(a[|b| - 1])] == b
    case Upgap => |b| < |a| && a[..|b| - 1] + [Inc(a[|b| - 1])] != b
  }

  /** At most one tag describes a pair of codes, so the tags partition all
      pairs (generate_wtcode returns one for every pair it does not fail on). */
  lemma ClassifiedUnique(t1: Relation, t2: Relation, prev: string, curr: string)
    requires Classified(t1, prev, curr) && Classified(t2, prev, curr)
    ensures t1 == t2
  {
    var a, b := Split(prev), Split(curr);
    if t1.Same? && |a| == |b| && a == b {
      assert a[..|b| - 1] == b[..|b| - 1];
    }
    if t2.Same? && |a| == |b| && a == b {
      assert a[..|b| - 1] == b[..|b| - 1];
    }
  }

  /** The number of segments of a drawing code once normalised. */
  function Depth(code: string): nat {
    |Split(Standard(code))|
  }

  /** The next wtcode as a function of the depth comparison alone: a sibling
      of prevWt at equal depth, its first child when the current code is
      deeper, and a step up by P-C+1 levels when it is shallower. None is the
      IndexError of stepping up more levels than prevWt has. */
  function NextWtcode(prevWt: string, prevCode: string, currCode: string): Option<string> {
    var p, c := Depth(prevCode), Depth(currCode);
    if c == p then Some(NextPeerCode(prevWt))
    else if c > p then Some(ChildCode(prevWt))
    else NextUpCode(prevWt, p - c + 1)
  }

  /** generate_wtcode: the relation tag between two consecutive drawing codes
      and the next wtcode. The code depends only on how the depths compare;
      the tag refines the comparison and never changes the code. */
  method GenerateWtcode(prevWt: string, prevCode: string, currCode: string) returns (r: Option<(Relation, string)>)
    ensures r.None? <==> NextWtcode(prevWt, prevCode, currCode).None?
    ensures r.Some? ==> NextWtcode(prevWt, prevCode, currCode) == Some(r.value.1)
    ensures r.Some? ==> Classified(r.value.0, Standard(prevCode), Standard(currCode))
  {
    var prev := Standard(prevCode);
    var curr := Standard(currCode);
    var prevList := Split(prev);
    var currList := Split(curr);
    if |currList| == |prevList| {
      var index := CompList(prevList, currList);
      var n := |currList|;
      var wtcode := NextPeerCode(prevWt);
      if index.value == n {
        assert prevList == prevList[..n] && currList == currList[..n];
        return Some((Same, wtcode));
      } else if index.value == n - 1 {
        assert prevList[..n - 1] == currList[..n - 1];
        assert prevList != currList;
        if Inc(prevList[n - 1]) == currList[n - 1] {
          return Some((Next, wtcode));
        } else {
          return Some((Peer, wtcode));
        }
      } else {
        assert prevList[..n - 1][index.value] != currList[..n - 1][index.value];
        return Some((Several, wtcode));
      }
    }
    if |currList| > |prevList| {
      var wtcode := ChildCode(prevWt);
      if curr == prev + ".1" {
        return Some((Child, wtcode));
      } else {
        return Some((Down, wtcode));
      }
    }
    var i := |prevList| - |currList| + 1;
    var newSeq := Inc(prevList[|currList| - 1]);
    var stepped := prevList[..|currList| - 1] + [newSeq];
    var wtcode := NextUpCode(prevWt, i);
    if wtcode.None? {
      return None;
    }
    if stepped == currList {
      return Some((Upser, wtcode.value));
    } else {
      return Some((Upgap, wtcode.value));
    }
  }

  /** generate_wtcode(...)[1]: the code alone, as getwtcode uses it. */
  method GeneratedCode(prevWt: string, prevCode: string, currCode: string) returns (w: Option<string>)
    ensures w == NextWtcode(prevWt, prevCode, currCode)
  {
    var g := GenerateWtcode(prevWt, prevCode, currCode);
    if g.None? {
      return None;
    }
    return Some(g.value.1);
  }

  // ===========================================================================
  // getwtcode

  /** The codes a rule for deriving each row's code from its predecessor
      gives a list of rows: first for the first row, then one step per row;
      None once a step fails. */
  function Chain(step: (string, string, string) -> Option<string>, first: string, rows: seq<Row>): (r: Option<seq<string>>)
    requires |rows| >= 1
    ensures r.Some? ==> |r.value| == |rows| && r.value[0] == first
    decreases |rows|
  {
    if |rows| == 1 then Some([first])
    else
      match Chain(step, first, rows[..|rows| - 1])
      case None => None
      case Some(ws) =>
        match step(ws[|ws| - 1], rows[|rows| - 2].code, rows[|rows| - 1].code)
        case None => None
        case Some(w) => Some(ws + [w])
  }

  /** Each code of a chain is the one the step derives from the row before. */
  lemma {:induction false} ChainSteps(step: (string, string, string) -> Option<string>, first: string, rows: seq<Row>)
    requires |rows| >= 1 && Chain(step, first, rows).Some?
    ensures var ws := Chain(step, first, rows).value;
      forall m :: 1 <= m < |rows| ==> step(ws[m - 1], rows[m - 1].code, rows[m].code) == Some(ws[m])
    decreases |rows|
  {
    if |rows| > 1 {
      var init := rows[..|rows| - 1];
      ChainSteps(step, first, init);
      var ws := Chain(step, first, init).value;
      var r := Chain(step, first, rows).value;
      var next := step(ws[|ws| - 1], rows[|rows| - 2].code, rows[|rows| - 1].code);
      assert next.Some? && r == ws + [next.value];
      forall m | 1 <= m < |rows| ensures step(r[m - 1], rows[m - 1].code, rows[m].code) == Some(r[m]) {
        if m < |rows| - 1 {
          assert r[m - 1] == ws[m - 1] && r[m] == ws[m];
          assert init[m - 1] == rows[m - 1] && init[m] == rows[m];
        } else {
          assert r[m - 1] == ws[|ws| - 1] && r[m] == next.value;
        }
      }
    }
  }

  /** A chain that fails on a prefix fails on the whole list. */
  lemma {:induction false} ChainFailsOnExtension(step: (string, string, string) -> Option<string>, first: string, rows: seq<Row>, m: nat)
    requires 1 <= m <= |rows|
    requires Chain(step, first, rows[..m]).None?
    ensures Chain(step, first, rows).None?
    decreases |rows| - m
  {
    if m < |rows| {
      assert rows[..m + 1][..m] == rows[..m];
      ChainFailsOnExtension(step, first, rows, m + 1);
    } else {
      assert rows[..m] == rows;
    }
  }

  /** One step of getwtcode's loop: a failing step fails the whole chain, a
      successful one extends it by its code. */
  lemma ChainNext(step: (string, string, string) -> Option<string>, first: string, rows: seq<Row>, m: nat, ws: seq<string>)
    requires 1 <= m < |rows| && Chain(step, first, rows[..m]) == Some(ws)
    ensures step(ws[m - 1], rows[m - 1].code, rows[m].code).None? ==> Chain(step, first, rows).None?
    ensures step(ws[m - 1], rows[m - 1].code, rows[m].code).Some? ==>
              Chain(step, first, rows[..m + 1]) == Some(ws + [step(ws[m - 1], rows[m - 1].code, rows[m].code).value])
  {
    var longer := rows[..m + 1];
    assert longer[..m] == rows[..m];
    assert longer[m - 1] == rows[m - 1] && longer[m] == rows[m];
    var next := step(ws[m - 1], rows[m - 1].code, rows[m].code);
    if next.None? {
      assert Chain(step, first, longer).None?;
      ChainFailsOnExtension(step, first, rows, m + 1);
    } else {
      assert Chain(step, first, longer) == Some(ws + [next.value]);
    }
  }

  /** The wtcodes getwtcode gives a list of dedicated rows: the part number
      first, then each one NextWtcode derives from its predecessor. */
  function WtChain(first: string, rows: seq<Row>): (r: Option<seq<string>>)
    requires |rows| >= 1
    ensures r.Some? ==> |r.value| == |rows| && r.value[0] == first
  {
    Chain(NextWtcode, first, rows)
  }

  /** One duplicate-code message per later row whose drawing code equals the
      first row's. */
  function DuplicateMsgs(first: Row, later: seq<Row>): seq<Msg>
    decreases |later|
  {
    if later == [] then []
    else
      var v := later[|later| - 1];
      DuplicateMsgs(first, later[..|later| - 1]) +
      (if v.code == first.code
       then [DuplicateCode(v.code, v.spec, v.totalMass, first.code, first.spec, first.totalMass)]
       else [])
  }

  lemma DuplicateMsgsAppend(first: Row, later: seq<Row>, v: Row)
    ensures DuplicateMsgs(first, later + [v]) == DuplicateMsgs(first, later) +
      (if v.code == first.code
       then [DuplicateCode(v.code, v.spec, v.totalMass, first.code, first.spec, first.totalMass)]
       else [])
  {
    assert (later + [v])[..|later|] == later;
  }

  function WithCode(row: Row, w: string): Row {
    row.(wtcode := Some(w))
  }

  /** The dedicated rows getwtcode numbers: the first Cut rows, cleaned. */
  function Dedicated(data: seq<Row>): seq<Row>
    requires |data| > 0
  {
    Kept(data[0].code, data[..Cut(data[0].code, data)])
  }

  /** The purchased rows: everything after the cut. */
  function Purchased(data: seq<Row>): seq<Row>
    requires |data| > 0
  {
    data[Cut(data[0].code, data)..]
  }

  /** The first row is always dedicated and survives the cleaning, because a
      code starts with itself. */
  lemma DedicatedStartsWithFirstRow(data: seq<Row>)
    requires |data| > 0
    ensures |Dedicated(data)| >= 1 && Dedicated(data)[0] == data[0]
  {
    var base := data[0].code;
    var d := data[..Cut(base, data)];
    assert d == [data[0]] + d[1..];
    KeptConcat(base, [data[0]], d[1..]);
    assert Kept(base, [data[0]]) == Kept(base, []) + [data[0]];
  }

  /** The k-th purchased row (from 0) gets the summary code plus ".k+1". */
  function PurchasedCode(header: string, k: nat): string {
    header + [Dot] + NatToStr(k + 1)
  }

  /** What getwtcode leaves in res: the coded rows and the info list. */
  datatype Coded = Coded(data: seq<Row>, info: seq<Msg>)

  /** The info list getwtcode produces, from the one it is given. */
  function InfoAfter(data: seq<Row>, info: seq<Msg>, declared: int): seq<Msg>
    requires |data| > 0
  {
    var base := data[0].code;
    var n := Cut(base, data);
    var ded := Dedicated(data);
    info + [PartsSummary(declared, n, |data| - n)] + Removed(base, data[..n]) +
    (if |ded| == 0 then [] else DuplicateMsgs(ded[0], ded[1..])) + [DedicatedRemaining(|ded|)]
  }

  /** Rows with the codes of a chain attached, position by position. */
  function WithCodes(rows: seq<Row>, ws: seq<string>): (r: seq<Row>)
    requires |ws| == |rows|
    ensures |r| == |rows| && forall j :: 0 <= j < |rows| ==> r[j] == WithCode(rows[j], ws[j])
  {
    seq(|rows|, j requires 0 <= j < |rows| => WithCode(rows[j], ws[j]))
  }

  /** The summary row with the given code, then the purchased rows numbered
      under it. */
  function PurchasedBlock(header: string, buy: seq<Row>): (r: seq<Row>)
    ensures |r| == 1 + |buy| && r[0] == SummaryRow.(wtcode := Some(header))
    ensures forall k :: 0 <= k < |buy| ==> r[1 + k] == WithCode(buy[k], PurchasedCode(header, k))
  {
    [SummaryRow.(wtcode := Some(header))] +
    seq(|buy|, k requires 0 <= k < |buy| => WithCode(buy[k], PurchasedCode(header, k)))
  }

  /** What getwtcode computes, stated over whole lists: the cleaned
      dedicated rows with their chain of codes, then, only when there are
      purchased rows, the summary row and the purchased rows. */
  function GetWtcodeResult(data: seq<Row>, info: seq<Msg>, declared: int, partNumber: Option<string>): Result<Coded> {
    if |data| == 0 then Err(IndexError)
    else if partNumber.None? then Err(KeyError)
    else
      DedicatedStartsWithFirstRow(data);
      match WtChain(partNumber.value, Dedicated(data))
      case None => Err(IndexError)
      case Some(ws) =>
        match CodeRows(Dedicated(data), ws, Purchased(data))
        case None => Err(IndexError)
        case Some(out) => Ok(Coded(out, InfoAfter(data, info, declared)))
  }

  /** The output rows of getwtcode once the dedicated rows have their
      codes: those rows, then, only when there are purchased rows, the
      summary row and the purchased rows under FirstBuyCode of the last
      dedicated code. None: that code has fewer than three segments. */
  function CodeRows(ded: seq<Row>, ws: seq<string>, buy: seq<Row>): Option<seq<Row>>
    requires |ws| == |ded| >= 1
  {
    if |buy| == 0 then Some(WithCodes(ded, ws))
    else
      match FirstBuyCode(ws[|ws| - 1])
      case None => None
      case Some(h) => Some(WithCodes(ded, ws) + PurchasedBlock(h, buy))
  }

  /** The shape of the output rows: the coded dedicated rows, then, when
      there are purchased rows, the summary row coded with FirstBuyCode of
      the last dedicated code and the purchased block under it. */
  lemma CodeRowsShape(ded: seq<Row>, ws: seq<string>, buy: seq<Row>)
    requires |ws| == |ded| >= 1
    ensures CodeRows(ded, ws, buy).None? <==> |buy| > 0 && FirstBuyCode(ws[|ws| - 1]).None?
    ensures CodeRows(ded, ws, buy).Some? ==>
      var out := CodeRows(ded, ws, buy).value;
      && |out| == |ded| + (if |buy| == 0 then 0 else 1 + |buy|)
      && out[..|ded|] == WithCodes(ded, ws)
      && (|buy| > 0 ==> out[|ded|..] == PurchasedBlock(FirstBuyCode(ws[|ws| - 1]).value, buy))
  {
    var coded := WithCodes(ded, ws);
    if |buy| == 0 {
      assert coded[..|ded|] == coded;
    } else if FirstBuyCode(ws[|ws| - 1]).Some? {
      var out := coded + PurchasedBlock(FirstBuyCode(ws[|ws| - 1]).value, buy);
      assert out[..|ded|] == coded;
    }
  }

  /** The rows of a chain, coded: each keeps its fields and gets its code,
      the first one `first`, each later one the code the step derives from
      its predecessor. */
  lemma CodedChain(step: (string, string, string) -> Option<string>, first: string, ded: seq<Row>, out: seq<Row>)
    requires |ded| >= 1 && Chain(step, first, ded).Some?
    requires |out| >= |ded| && out[..|ded|] == WithCodes(ded, Chain(step, first, ded).value)
    ensures forall j :: 0 <= j < |ded| ==> out[j].wtcode.Some? && out[j] == ded[j].(wtcode := out[j].wtcode)
    ensures out[0].wtcode == Some(first)
    ensures forall m :: 1 <= m < |ded| ==> step(out[m - 1].wtcode.value, ded[m - 1].code, ded[m].code) == out[m].wtcode
  {
    var ws := Chain(step, first, ded).value;
    ChainSteps(step, first, ded);
    forall j | 0 <= j < |ded| ensures out[j] == WithCode(ded[j], ws[j]) {
      assert out[j] == out[..|ded|][j];
    }
  }

  /** The error outcomes of getwtcode. IndexError: no rows, or a step up
      beyond the depth of the previous wtcode; KeyError: no part number. */
  lemma GetWtcodeErrors(data: seq<Row>, info: seq<Msg>, declared: int, partNumber: Option<string>)
    ensures |data| == 0 ==> GetWtcodeResult(data, info, declared, partNumber) == Err(IndexError)
    ensures |data| > 0 && partNumber.None? ==> GetWtcodeResult(data, info, declared, partNumber) == Err(KeyError)
    ensures |data| > 0 && partNumber.Some? && WtChain(partNumber.value, Dedicated(data)).None? ==>
              GetWtcodeResult(data, info, declared, partNumber) == Err(IndexError)
    ensures |data| > 0 && partNumber.Some? && WtChain(partNumber.value, Dedicated(data)).Some? && |Purchased(data)| == 0 ==>
              GetWtcodeResult(data, info, declared, partNumber).Ok?
  {
  }

  /** The shape of a successful getwtcode: the coded dedicated rows, then,
      when there are purchased rows, the summary row coded with FirstBuyCode
      of the last dedicated wtcode and the purchased block under it; the
      info list gains the messages of InfoAfter. */
  lemma GetWtcodeShape(data: seq<Row>, info: seq<Msg>, declared: int, partNumber: Option<string>)
    requires GetWtcodeResult(data, info, declared, partNumber).Ok?
    ensures |data| > 0 && partNumber.Some? && WtChain(partNumber.value, Dedicated(data)).Some?
    ensures var ded, buy, out := Dedicated(data), Purchased(data), GetWtcodeResult(data, info, declared, partNumber).value.data;
      var ws := WtChain(partNumber.value, ded).value;
      && |ded| >= 1 && ded[0] == data[0]
      && |out| == |ded| + (if |buy| == 0 then 0 else 1 + |buy|)
      && out[..|ded|] == WithCodes(ded, ws)
      && (|buy| > 0 ==> FirstBuyCode(ws[|ws| - 1]).Some? && out[|ded|..] == PurchasedBlock(FirstBuyCode(ws[|ws| - 1]).value, buy))
    ensures GetWtcodeResult(data, info, declared, partNumber).value.info == InfoAfter(data, info, declared)
  {
    DedicatedStartsWithFirstRow(data);
    CodeRowsShape(Dedicated(data), WtChain(partNumber.value, Dedicated(data)).value, Purchased(data));
  }

  /** A successful getwtcode: every dedicated row has a wtcode and keeps
      its other fields, in order; the first is coded with the part number
      and each later one with the code NextWtcode derives from its
      predecessor. */
  lemma GetWtcodeDedicated(data: seq<Row>, info: seq<Msg>, declared: int, partNumber: Option<string>)
    requires GetWtcodeResult(data, info, declared, partNumber).Ok?
    ensures |data| > 0 && partNumber.Some?
    ensures var ded, out := Dedicated(data), GetWtcodeResult(data, info, declared, partNumber).value.data;
      && |ded| >= 1 && ded[0] == data[0] && |out| >= |ded|
      && (forall j :: 0 <= j < |ded| ==> out[j].wtcode.Some? && out[j] == ded[j].(wtcode := out[j].wtcode))
      && out[0].wtcode == partNumber
      && (forall m :: 1 <= m < |ded| ==>
            NextWtcode(out[m - 1].wtcode.value, ded[m - 1].code, ded[m].code) == out[m].wtcode)
  {
    GetWtcodeShape(data, info, declared, partNumber);
    CodedChain(NextWtcode, partNumber.value, Dedicated(data), GetWtcodeResult(data, info, declared, partNumber).value.data);
  }

  /** One step of getwtcode's loop over the dedicated rows, for any step
      function: a failing step fails the chain; a successful one codes row
      m and extends the chain by its code. */
  lemma CodedStep(step: (string, string, string) -> Option<string>, first: string, ded: seq<Row>,
                  dedicated: seq<Row>, ws: seq<string>, m: nat, g: Option<string>)
    requires 1 <= m < |ded| == |dedicated|
    requires Chain(step, first, ded[..m]) == Some(ws) && |ws| == m
    requires forall j :: 0 <= j < m ==> dedicated[j] == WithCode(ded[j], ws[j])
    requires forall j :: m <= j < |ded| ==> dedicated[j] == ded[j]
    requires dedicated[m - 1].wtcode.Some?
    requires g == step(dedicated[m - 1].wtcode.value, dedicated[m - 1].code, dedicated[m].code)
    ensures g.None? ==> Chain(step, first, ded).None?
    ensures g.Some? ==>
      var next := dedicated[m := WithCode(dedicated[m], g.value)];
      && Chain(step, first, ded[..m + 1]) == Some(ws + [g.value])
      && (forall j :: 0 <= j < m + 1 ==> next[j] == WithCode(ded[j], (ws + [g.value])[j]))
      && (forall j :: m + 1 <= j < |ded| ==> next[j] == ded[j])
      && next[m].code == ded[m].code && next[m].spec == ded[m].spec && next[m].totalMass == ded[m].totalMass
  {
    assert dedicated[m - 1] == WithCode(ded[m - 1], ws[m - 1]);
    ChainNext(step, first, ded, m, ws);
  }

  /** The loop of getwtcode over the dedicated rows: the first gets the part
      number, each later one the code NextWtcode derives from its
      predecessor, and a message is added for each later row whose drawing
      code repeats the first row's. None: a step failed (IndexError). */
  method NumberDedicated(first: string, ded: seq<Row>) returns (r: Option<(seq<Row>, seq<Msg>)>)
    requires |ded| >= 1
    ensures r.None? <==> WtChain(first, ded).None?
    ensures r.Some? ==> r.value == (WithCodes(ded, WtChain(first, ded).value), DuplicateMsgs(ded[0], ded[1..]))
  {
    var dedicated := ded[0 := WithCode(ded[0], first)];
    var dups: seq<Msg> := [];
    assert ded[..1] == [ded[0]];
    ghost var ws := [first];
    var m := 1;
    while m < |dedicated|
      invariant 1 <= m <= |dedicated| == |ded|
      invariant WtChain(first, ded[..m]) == Some(ws) && |ws| == m
      invariant forall j :: 0 <= j < m ==> dedicated[j] == WithCode(ded[j], ws[j])
      invariant forall j :: m <= j < |ded| ==> dedicated[j] == ded[j]
      invariant dups == DuplicateMsgs(ded[0], ded[1..m])
    {
      assert ded[1..m + 1] == ded[1..m] + [ded[m]];
      DuplicateMsgsAppend(ded[0], ded[1..m], ded[m]);
      var g := GeneratedCode(dedicated[m - 1].wtcode.value, dedicated[m - 1].code, dedicated[m].code);
      CodedStep(NextWtcode, first, ded, dedicated, ws, m, g);
      if g.None? {
        return None;
      }
      dedicated := dedicated[m := WithCode(dedicated[m], g.value)];
      ws := ws + [g.value];
      if dedicated[m].code == dedicated[0].code {
        dups := dups + [DuplicateCode(dedicated[m].code, dedicated[m].spec, dedicated[m].totalMass,
                                      dedicated[0].code, dedicated[0].spec, dedicated[0].totalMass)];
      }
      m := m + 1;
    }
    assert ded[..m] == ded;
    assert dedicated == WithCodes(ded, ws);
    return Some((dedicated, dups));
  }

  /** The tail of getwtcode when there are purchased rows: the summary row
      goes in front of them with the first purchased code after the last
      dedicated wtcode, the first purchased row becomes its child and each
      later one gets the next code after its predecessor. None: the last
      dedicated wtcode has fewer than three segments (IndexError). */
  method CodePurchased(lastWt: string, buy: seq<Row>) returns (r: Option<seq<Row>>)
    requires |buy| >= 1
    ensures r.None? <==> FirstBuyCode(lastWt).None?
    ensures r.Some? ==> r.value == PurchasedBlock(FirstBuyCode(lastWt).value, buy)
  {
    var l := SummaryRow;
    var rows := [l] + buy;
    var first := FirstBuyCode(lastWt);
    if first.None? {
      return None;
    }
    var header := first.value;
    rows := rows[0 := l.(wtcode := first)];
    rows := rows[1 := WithCode(rows[1], ChildCode(rows[0].wtcode.value))];
    assert ChildCode(header) == PurchasedCode(header, 0);
    var n := 2;
    while n < |rows|
      invariant 2 <= n <= |rows| == 1 + |buy|
      invariant rows[0] == l.(wtcode := first)
      invariant forall k :: 0 <= k < n - 1 ==> rows[1 + k] == WithCode(buy[k], PurchasedCode(header, k))
      invariant forall k :: n <= k < |rows| ==> rows[k] == buy[k - 1]
    {
      assert rows[n - 1] == WithCode(buy[n - 2], PurchasedCode(header, n - 2));
      NextBuyCodeStep(header, n - 1);
      rows := rows[n := WithCode(rows[n], NextBuyCode(rows[n - 1].wtcode.value))];
      n := n + 1;
    }
    ghost var block := PurchasedBlock(header, buy);
    forall k | 0 <= k < |rows| ensures rows[k] == block[k] {
      if k > 0 {
        assert rows[1 + (k - 1)] == block[1 + (k - 1)];
      }
    }
    return Some(rows);
  }

  /** getwtcode over res["data"], res["info"], res["零件数量"] (declared) and
      res["部件编号"] (partNumber, None when the key is absent). */
  method GetWtcode(data: seq<Row>, info: seq<Msg>, declared: int, partNumber: Option<string>)
    returns (r: Result<Coded>)
    ensures r == GetWtcodeResult(data, info, declared, partNumber)
  {
    if |data| == 0 {
      return Err(IndexError);
    }
    var base := data[0].code;
    var split := SplitDatas(base, data);
    var dedicated, buy := split.value.0, split.value.1;
    assert dedicated == data[..Cut(base, data)] && buy == Purchased(data);
    var out := info + [PartsSummary(declared, |dedicated|, |buy|)];
    var removed;
    dedicated, removed := DelDedicated(base, dedicated);
    out := out + removed;
    if partNumber.None? {
      return Err(KeyError);
    }
    DedicatedStartsWithFirstRow(data);
    var numbered := NumberDedicated(partNumber.value, dedicated);
    if numbered.None? {
      return Err(IndexError);
    }
    ghost var ws := WtChain(partNumber.value, Dedicated(data)).value;
    dedicated := numbered.value.0;
    out := out + numbered.value.1 + [DedicatedRemaining(|dedicated|)];
    assert out == InfoAfter(data, info, declared);
    if |buy| > 0 {
      var lastWt := dedicated[|dedicated| - 1].wtcode.value;
      assert lastWt == ws[|ws| - 1];
      var purchased := CodePurchased(lastWt, buy);
      if purchased.None? {
        return Err(IndexError);
      }
      return Ok(Coded(dedicated + purchased.value, out));
    }
    return Ok(Coded(dedicated, out));
  }
}
