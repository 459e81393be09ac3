/**
The GPU devices of a container: the host's device identifiers are renumbered by their place in the
sorted list of identifiers, since the container only sees the devices given to it.
 */
module Devices {
  import opened Text
  import Decimal

  // ---------------------------------------------------------------- the order of strings

  /** std::string's order. */
  predicate Less(a: string, b: string) {
    b != "" && (a == "" || a[0] < b[0] || (a[0] == b[0] && Less(a[1..], b[1..])))
  }

  lemma {:induction false} LessTotal(a: string, b: string)
    ensures Less(a, b) || Less(b, a) || a == b
    ensures !(Less(a, b) && Less(b, a)) && !Less(a, a)
  {
    if a != "" {
      LessTotal(a[1..], a[1..]);
      if b != "" {
        LessTotal(a[1..], b[1..]);
        if a[0] == b[0] && a[1..] == b[1..] {
          assert a == [a[0]] + a[1..] == b;
        }
      }
    }
  }

  lemma {:induction false} LessTransitive(a: string, b: string, c: string)
    requires Less(a, b) && !Less(c, b)
    ensures Less(a, c)
  {
    if a != "" && c != "" && b[0] == c[0] && a[0] == b[0] {
      LessTransitive(a[1..], b[1..], c[1..]);
    }
  }

  lemma NotLessTransitive(a: string, b: string, c: string)
    requires !Less(b, a) && !Less(c, b)
    ensures !Less(c, a)
  {
    if Less(c, a) {
      LessTransitive(c, a, b);
    }
  }

  // ---------------------------------------------------------------- sorting

  predicate Sorted(s: seq<string>) {
    forall i, j :: 0 <= i < j < |s| ==> !Less(s[j], s[i])
  }

  function Insert(x: string, s: seq<string>): seq<string> {
    if s == [] || !Less(s[0], x) then [x] + s else [s[0]] + Insert(x, s[1..])
  }

  /** The result of std::sort, which for strings is determined by its input. */
  function Sort(s: seq<string>): seq<string> {
    if s == [] then [] else Insert(s[0], Sort(s[1..]))
  }

  lemma {:induction false} InsertMembers(x: string, s: seq<string>)
    ensures |Insert(x, s)| == |s| + 1
    ensures forall y :: y in Insert(x, s) <==> y == x || y in s
    ensures multiset(Insert(x, s)) == multiset(s) + multiset{x}
  {
    if s != [] {
      InsertMembers(x, s[1..]);
      assert s == [s[0]] + s[1..];
    }
  }

  lemma {:induction false} InsertKeepsSorted(x: string, s: seq<string>)
    requires Sorted(s)
    ensures Sorted(Insert(x, s))
  {
    if s == [] {
    } else if !Less(s[0], x) {
      LessTotal(s[0], s[0]);
      forall i | 0 <= i < |s|
        ensures !Less(s[i], x)
      {
        NotLessTransitive(x, s[0], s[i]);
      }
    } else {
      InsertKeepsSorted(x, s[1..]);
      InsertMembers(x, s[1..]);
      LessTotal(s[0], x);
      var rest := Insert(x, s[1..]);
      forall i | 0 <= i < |rest|
        ensures !Less(rest[i], s[0])
      {
        assert rest[i] in rest;
      }
    }
  }

  lemma {:induction false} SortMembers(s: seq<string>)
    ensures |Sort(s)| == |s| && multiset(Sort(s)) == multiset(s)
    ensures forall y :: y in Sort(s) <==> y in s
  {
    if s != [] {
      SortMembers(s[1..]);
      InsertMembers(s[0], Sort(s[1..]));
      assert s == [s[0]] + s[1..];
    }
  }

  lemma {:induction false} SortSorts(s: seq<string>)
    ensures Sorted(Sort(s))
  {
    if s != [] {
      SortSorts(s[1..]);
      InsertKeepsSorted(s[0], Sort(s[1..]));
    }
  }

  // ---------------------------------------------------------------- renumbering

  /** std::find: the first position, or the length. */
  function Find(s: seq<string>, x: string): (i: nat)
    ensures i <= |s| && (i < |s| ==> s[i] == x) && (i == |s| <==> x !in s)
    ensures forall j :: 0 <= j < i ==> s[j] != x
  {
    if s == [] || s[0] == x then 0 else 1 + Find(s[1..], x)
  }

  /** How many identifiers come before x. */
  function CountLess(s: seq<string>, x: string): nat {
    if s == [] then 0 else (if Less(s[0], x) then 1 else 0) + CountLess(s[1..], x)
  }

  lemma {:induction false} CountLessInsert(y: string, s: seq<string>, x: string)
    ensures CountLess(Insert(y, s), x) == CountLess([y] + s, x)
  {
    assert ([y] + s)[1..] == s;
    if s != [] && Less(s[0], y) {
      CountLessInsert(y, s[1..], x);
      assert ([y] + s[1..])[1..] == s[1..];
    }
  }

  lemma {:induction false} CountLessSort(s: seq<string>, x: string)
    ensures CountLess(Sort(s), x) == CountLess(s, x)
  {
    if s != [] {
      CountLessSort(s[1..], x);
      CountLessInsert(s[0], Sort(s[1..]), x);
      assert ([s[0]] + Sort(s[1..]))[1..] == Sort(s[1..]);
    }
  }

  lemma {:induction false} FindInSorted(s: seq<string>, x: string)
    requires Sorted(s) && x in s
    ensures Find(s, x) == CountLess(s, x)
  {
    if s[0] == x {
      LessTotal(x, x);
      NoneLess(s, x);
    } else {
      FindInSorted(s[1..], x);
      LessTotal(s[0], x);
      var i :| 0 < i < |s| && s[i] == x;
      assert !Less(s[i], s[0]);
    }
  }

  lemma {:induction false} NoneLess(s: seq<string>, x: string)
    requires forall i :: 0 <= i < |s| ==> !Less(s[i], x)
    ensures CountLess(s, x) == 0
  {
    if s != [] {
      NoneLess(s[1..], x);
    }
  }

  function Renumbered(ids: seq<string>): (indices: seq<nat>)
    ensures |indices| == |ids|
  {
    seq(|ids|, i requires 0 <= i < |ids| => Find(Sort(ids), ids[i]))
  }

  /**
  The index of a device is the number of devices with smaller identifiers, and indexing the sorted
  list by it gives the identifier back.
   */
  lemma IndexIsRank(ids: seq<string>, i: nat)
    requires i < |ids|
    ensures Renumbered(ids)[i] == CountLess(ids, ids[i])
    ensures Renumbered(ids)[i] < |ids| == |Sort(ids)| && Sort(ids)[Renumbered(ids)[i]] == ids[i]
  {
    SortSorts(ids);
    SortMembers(ids);
    FindInSorted(Sort(ids), ids[i]);
    CountLessSort(ids, ids[i]);
  }

  /** The order of the indices is the order of the identifiers. */
  lemma OrderAgrees(ids: seq<string>, i: nat, j: nat)
    requires i < |ids| && j < |ids|
    ensures Renumbered(ids)[i] < Renumbered(ids)[j] <==> Less(ids[i], ids[j])
    ensures Renumbered(ids)[i] == Renumbered(ids)[j] <==> ids[i] == ids[j]
  {
    IndexIsRank(ids, i);
    IndexIsRank(ids, j);
    SortSorts(ids);
    SortMembers(ids);
    LessTotal(ids[i], ids[j]);
  }

  ghost predicate Distinct<T>(s: seq<T>) {
    forall i, j :: 0 <= i < j < |s| ==> s[i] != s[j]
  }

  /** The indices are the numbers from 0 to n-1 in some order. */
  ghost predicate IsPermutation(indices: seq<nat>) {
    Distinct(indices) && (forall i :: 0 <= i < |indices| ==> indices[i] < |indices|) && (forall k: nat :: k < |indices| ==> k in indices)
  }

  lemma IndicesDistinctIff(ids: seq<string>)
    ensures Distinct(Renumbered(ids)) <==> Distinct(ids)
  {
    var indices := Renumbered(ids);
    forall i, j | 0 <= i < j < |ids|
      ensures indices[i] == indices[j] <==> ids[i] == ids[j]
    {
      OrderAgrees(ids, i, j);
    }
  }

  /** Every place in the sorted list of distinct identifiers is the index of a device. */
  lemma EveryIndexIsUsed(ids: seq<string>, k: nat)
    requires Distinct(ids) && k < |ids|
    ensures k in Renumbered(ids)
  {
    SortMembers(ids);
    var sorted := Sort(ids);
    assert sorted[k] in sorted;
    var i :| 0 <= i < |ids| && ids[i] == sorted[k];
    DistinctSort(ids);
    IndexIsRank(ids, i);
    assert Renumbered(ids)[i] == k;
  }

  /** The container's indices are a permutation exactly if the host's identifiers are distinct. */
  lemma PermutationIff(ids: seq<string>)
    ensures IsPermutation(Renumbered(ids)) <==> Distinct(ids)
  {
    IndicesDistinctIff(ids);
    forall i | 0 <= i < |ids|
      ensures Renumbered(ids)[i] < |ids|
    {
      IndexIsRank(ids, i);
    }
    if Distinct(ids) {
      forall k: nat | k < |ids|
        ensures k in Renumbered(ids)
      {
        EveryIndexIsUsed(ids, k);
      }
    }
  }

  lemma {:induction false} InsertKeepsDistinct(x: string, s: seq<string>)
    requires Distinct(s) && x !in s
    ensures Distinct(Insert(x, s))
  {
    if s == [] || !Less(s[0], x) {
      DistinctCons(x, s);
    } else {
      var rest := s[1..];
      InsertKeepsDistinct(x, rest);
      InsertMembers(x, rest);
      assert s[0] !in rest;
      DistinctCons(s[0], Insert(x, rest));
    }
  }

  lemma DistinctCons(x: string, s: seq<string>)
    requires Distinct(s) && x !in s
    ensures Distinct([x] + s)
  {
  }

  lemma {:induction false} DistinctSort(ids: seq<string>)
    requires Distinct(ids)
    ensures Distinct(Sort(ids))
  {
    if ids != [] {
      DistinctSort(ids[1..]);
      SortMembers(ids[1..]);
      InsertKeepsDistinct(ids[0], Sort(ids[1..]));
    }
  }

  // ---------------------------------------------------------------- devices named by numbers

  /** The order of strings, from their last characters. */
  lemma {:induction false} LessSnoc(a: string, b: string, x: char, y: char)
    requires |a| == |b|
    ensures Less(a + [x], b + [y]) <==> Less(a, b) || (a == b && x < y)
  {
    if a == "" {
      assert (a + [x])[1..] == "" && (b + [y])[1..] == "";
    } else {
      LessSnoc(a[1..], b[1..], x, y);
      assert (a + [x])[1..] == a[1..] + [x] && (b + [y])[1..] == b[1..] + [y];
      assert a == b <==> a[0] == b[0] && a[1..] == b[1..] by {
        assert a == [a[0]] + a[1..] && b == [b[0]] + b[1..];
      }
    }
  }

  /** Digit strings of the same length are ordered like their values. */
  lemma {:induction false} LessSameLength(a: string, b: string)
    requires |a| == |b| && Decimal.AllDigits(a) && Decimal.AllDigits(b)
    ensures Less(a, b) <==> Decimal.ValueOf(a) < Decimal.ValueOf(b)
    ensures a == b <==> Decimal.ValueOf(a) == Decimal.ValueOf(b)
  {
    if a != "" {
      var n := |a| - 1;
      assert a == a[..n] + [a[n]] && b == b[..n] + [b[n]];
      assert a[n] in a && b[n] in b;
      LessSameLength(a[..n], b[..n]);
      LessSnoc(a[..n], b[..n], a[n], b[n]);
    }
  }

  /** A shorter string is before a longer one exactly if it is not after what the longer one starts with. */
  lemma {:induction false} LessShorter(a: string, b: string)
    requires |a| < |b|
    ensures Less(a, b) <==> !Less(b[..|a|], a)
  {
    if a != "" {
      LessShorter(a[1..], b[1..]);
      assert b[..|a|][1..] == b[1..][..|a| - 1];
    }
  }

  lemma {:induction false} LongerIsLarger(m: nat, n: nat)
    requires m <= n
    ensures |Decimal.ToString(m)| <= |Decimal.ToString(n)|
  {
    if m >= 10 {
      LongerIsLarger(m / 10, n / 10);
    }
  }

  /** The first k digits of a number. */
  function Leading(n: nat, k: nat): nat
    requires k <= |Decimal.ToString(n)|
  {
    Decimal.ValueOf(Decimal.ToString(n)[..k])
  }

  /** The smaller number is not above what the larger one starts with, read to the same length. */
  predicate KeepsOrder(m: nat, n: nat) {
    m < n ==> (LongerIsLarger(m, n); m <= Leading(n, |Decimal.ToString(m)|))
  }

  /** For a smaller and a larger number, string order is numeric order exactly then. */
  lemma LessDecimal(m: nat, n: nat)
    requires m < n
    ensures Less(Decimal.ToString(m), Decimal.ToString(n)) <==> KeepsOrder(m, n)
  {
    var a, b := Decimal.ToString(m), Decimal.ToString(n);
    LongerIsLarger(m, n);
    Decimal.ValueOfToString(m);
    Decimal.ValueOfToString(n);
    LessSameLength(b[..|a|], a);
    if |a| < |b| {
      LessShorter(a, b);
    } else {
      assert b[..|a|] == b;
      LessSameLength(a, b);
    }
  }

  predicate InNumericOrder(numbers: seq<nat>, i: nat, j: nat)
    requires i < |numbers| && j < |numbers|
  {
    var indices := Renumbered(Decimal.Texts(numbers));
    indices[i] < indices[j] <==> numbers[i] < numbers[j]
  }

  lemma InNumericOrderIff(numbers: seq<nat>, i: nat, j: nat)
    requires i < |numbers| && j < |numbers|
    ensures InNumericOrder(numbers, i, j) <==> KeepsOrder(numbers[i], numbers[j]) && KeepsOrder(numbers[j], numbers[i])
  {
    var m, n := numbers[i], numbers[j];
    OrderAgrees(Decimal.Texts(numbers), i, j);
    LessTotal(Decimal.ToString(m), Decimal.ToString(n));
    if m < n {
      LessDecimal(m, n);
    } else if n < m {
      LessDecimal(n, m);
      if Decimal.ToString(m) == Decimal.ToString(n) {
        Decimal.ToStringInjective(m, n);
      }
    }
  }

  /**
  For devices named by numbers, the container's indices follow the numeric order exactly if of any two
  numbers the smaller is not above what the larger starts with.
   */
  lemma NumericOrderIff(numbers: seq<nat>)
    ensures (forall i: nat, j: nat :: i < |numbers| && j < |numbers| ==> InNumericOrder(numbers, i, j)) <==>
            (forall i: nat, j: nat :: i < |numbers| && j < |numbers| ==> KeepsOrder(numbers[i], numbers[j]))
  {
    forall i: nat, j: nat | i < |numbers| && j < |numbers|
      ensures InNumericOrder(numbers, i, j) <==> KeepsOrder(numbers[i], numbers[j]) && KeepsOrder(numbers[j], numbers[i])
    {
      InNumericOrderIff(numbers, i, j);
    }
  }

  /** So they do with at most ten devices, counted from 0. */
  lemma FewDevicesInOrder(numbers: seq<nat>, i: nat, j: nat)
    requires i < |numbers| && j < |numbers| && numbers[i] < 10 && numbers[j] < 10
    ensures InNumericOrder(numbers, i, j)
  {
    OneDigitKeepsOrder(numbers[i], numbers[j]);
    OneDigitKeepsOrder(numbers[j], numbers[i]);
    InNumericOrderIff(numbers, i, j);
  }

  lemma OneDigitKeepsOrder(m: nat, n: nat)
    requires m < 10 && n < 10
    ensures KeepsOrder(m, n)
  {
    var b := Decimal.ToString(n);
    assert b[..1] == b;
    Decimal.ValueOfToString(n);
  }

  /** But not with devices 9 and 10. */
  lemma NineAndTenSwap()
    ensures Renumbered(Decimal.Texts([9, 10])) == [1, 0]
  {
    var ids := Decimal.Texts([9, 10]);
    assert Decimal.ToString(10)[..1] == Decimal.ToString(1);
    Decimal.ValueOfToString(1);
    assert !KeepsOrder(9, 10);
    InNumericOrderIff([9, 10], 0, 1);
    Decimal.ValueOfToString(9);
    Decimal.ValueOfToString(10);
    OrderAgrees(ids, 0, 1);
    IndexIsRank(ids, 0);
    IndexIsRank(ids, 1);
  }

  // ---------------------------------------------------------------- the environment variables

  type Environment = map<string, string>

  /** The container's list of devices for the host's. */
  function ContainerDevices(hostDevices: string): string {
    Join(Decimal.Texts(Renumbered(Split(hostDevices, ','))), ',')
  }

  /** Splitting the container's list gives the indices again. */
  lemma ContainerDevicesSplit(hostDevices: string)
    ensures Split(ContainerDevices(hostDevices), ',') == Decimal.Texts(Renumbered(Split(hostDevices, ',')))
  {
    var numbers := Decimal.Texts(Renumbered(Split(hostDevices, ',')));
    assert FreeOf(numbers, ',');
    SplitJoin(numbers, ',');
  }

  method SetNvidiaEnvironmentVariables(host: Environment, container: Environment) returns (container': Environment)
    ensures
      if "CUDA_VISIBLE_DEVICES" in host && host["CUDA_VISIBLE_DEVICES"] != "NoDevFiles" then
        var devices := host["CUDA_VISIBLE_DEVICES"];
        container' == container
          ["NVIDIA_DRIVER_CAPABILITIES" := if "NVIDIA_DRIVER_CAPABILITIES" in container then container["NVIDIA_DRIVER_CAPABILITIES"] else "all"]
          ["NVIDIA_VISIBLE_DEVICES" := devices]["CUDA_VISIBLE_DEVICES" := ContainerDevices(devices)]
      else
        container' == container - {"CUDA_VERSION", "CUDA_VISIBLE_DEVICES", "NVIDIA_VISIBLE_DEVICES", "NVIDIA_DRIVER_CAPABILITIES"}
  {
    if "CUDA_VISIBLE_DEVICES" in host && host["CUDA_VISIBLE_DEVICES"] != "NoDevFiles" {
      var devices := host["CUDA_VISIBLE_DEVICES"];
      container' := container["NVIDIA_VISIBLE_DEVICES" := devices];
      if "NVIDIA_DRIVER_CAPABILITIES" !in container' {
        container' := container'["NVIDIA_DRIVER_CAPABILITIES" := "all"];
      }
      var containerDevices := WriteDevices(devices);
      container' := container'["CUDA_VISIBLE_DEVICES" := containerDevices];
    } else {
      container' := container - {"CUDA_VERSION"} - {"CUDA_VISIBLE_DEVICES"} - {"NVIDIA_VISIBLE_DEVICES"} - {"NVIDIA_DRIVER_CAPABILITIES"};
    }
  }

  /** The loop that builds the list, with a comma after every index, and drops the last comma. */
  method WriteDevices(hostDevices: string) returns (devices: string)
    ensures devices == ContainerDevices(hostDevices)
  {
    var ids := Split(hostDevices, ',');
    var sorted := Sort(ids);
    ghost var numbers := Decimal.Texts(Renumbered(ids));
    devices := "";
    for k := 0 to |ids|
      invariant devices == if k == 0 then "" else Join(numbers[..k], ',') + ","
    {
      if k > 0 {
        JoinNext(numbers, ',', k);
      }
      devices := devices + Decimal.ToString(Find(sorted, ids[k])) + ",";
    }
    assert numbers[..|ids|] == numbers;
    devices := devices[..|devices| - 1];
  }
}
