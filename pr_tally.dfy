/**
 * The author statistics of the pull-request notes: how many pull requests
 * each login submitted, the logins grouped by that count, and the line
 * per count that heads the list.
 */
module PrTally {
  import opened Optional
  import opened JsString
  import opened Pagination

  /**
   * The `authors` object: its logins in the order they were added, which
   * is the order `for (var author in authors)` visits them, and the count
   * stored under each.
   */
  datatype Authors = Authors(order: seq<string>, count: map<string, nat>)

  const NoAuthors := Authors([], map[])

  /** One pull request by `login`: a truthy count goes up by one, otherwise the login is added with 1. */
  function Record(a: Authors, login: string): Authors {
    if login in a.count && a.count[login] != 0 then Authors(a.order, a.count[login := a.count[login] + 1])
    else Authors(a.order + [login], a.count[login := 1])
  }

  /** The tally `a` after the pull requests in `items`, one after the other. */
  function TallyFrom(a: Authors, items: seq<Item>): Authors
    decreases |items|
  {
    if items == [] then a else Record(TallyFrom(a, items[..|items| - 1]), items[|items| - 1].user.login)
  }

  function Tally(items: seq<Item>): Authors {
    TallyFrom(NoAuthors, items)
  }

  /** Tallying two lists one after the other is tallying the joined list. */
  lemma {:induction false} TallyFromAppend(a: Authors, x: seq<Item>, y: seq<Item>)
    ensures TallyFrom(a, x + y) == TallyFrom(TallyFrom(a, x), y)
    decreases |y|
  {
    if y == [] {
      assert x + y == x;
    } else {
      var y' := y[..|y| - 1];
      TallyFromAppend(a, x, y');
      var xy := x + y;
      assert xy[..|xy| - 1] == x + y';
      assert xy[|xy| - 1] == y[|y| - 1];
    }
  }

  /** The login of each pull request, in order. */
  function Submitters(items: seq<Item>): (ls: seq<string>)
    ensures |ls| == |items|
  {
    seq(|items|, i requires 0 <= i < |items| => items[i].user.login)
  }

  lemma SubmittersLast(items: seq<Item>)
    requires items != []
    ensures Submitters(items) == Submitters(items[..|items| - 1]) + [items[|items| - 1].user.login]
  {
  }

  predicate Distinct(s: seq<string>) {
    forall i, j :: 0 <= i < j < |s| ==> s[i] != s[j]
  }

  /**
   * The tally lists every login that submitted a pull request and no
   * other, each once, and gives each a count of at least one.
   */
  lemma {:induction false} TallyLogins(items: seq<Item>)
    ensures var a := Tally(items);
      (forall l :: l in a.count <==> l in Submitters(items))
      && (forall l :: l in a.order <==> l in Submitters(items))
      && Distinct(a.order)
      && (forall l :: l in a.count ==> a.count[l] >= 1)
  {
    if items != [] {
      var p := items[..|items| - 1];
      TallyLogins(p);
      SubmittersLast(items);
    }
  }

  /** The count of each login is the number of pull requests it submitted. */
  lemma {:induction false} TallyCounts(items: seq<Item>)
    ensures var a := Tally(items);
      forall l :: l in a.count ==> a.count[l] == multiset(Submitters(items))[l]
  {
    if items != [] {
      var p := items[..|items| - 1];
      TallyCounts(p);
      TallyLogins(p);
      SubmittersLast(items);
    }
  }

  /** The position of the first `x` in `s`, or `|s|` when there is none. */
  function First(s: seq<string>, x: string): (r: nat)
    ensures r <= |s|
    ensures r < |s| ==> s[r] == x
    ensures forall i :: 0 <= i < r ==> s[i] != x
  {
    if s == [] then 0 else if s[0] == x then 0 else 1 + First(s[1..], x)
  }

  lemma FirstAppend(s: seq<string>, y: string, x: string)
    requires x in s || x == y
    ensures First(s + [y], x) == if x in s then First(s, x) else |s|
  {
    var r := First(s + [y], x);
    if x in s {
      var f := First(s, x);
      assert (s + [y])[f] == x;
    } else {
      assert (s + [y])[|s|] == x;
    }
  }

  /** The logins are listed in the order of their first pull request. */
  lemma {:induction false} TallyOrder(items: seq<Item>)
    ensures var a := Tally(items); var ls := Submitters(items);
      forall i, j :: 0 <= i < j < |a.order| ==> First(ls, a.order[i]) < First(ls, a.order[j])
  {
    if items != [] {
      var p := items[..|items| - 1];
      var login := items[|items| - 1].user.login;
      var a, a' := Tally(p), Tally(items);
      var ls, ls' := Submitters(p), Submitters(items);
      TallyOrder(p);
      TallyLogins(p);
      SubmittersLast(items);
      forall i, j | 0 <= i < j < |a'.order|
        ensures First(ls', a'.order[i]) < First(ls', a'.order[j])
      {
        FirstAppend(ls, login, a'.order[i]);
        FirstAppend(ls, login, a'.order[j]);
        if j < |a.order| {
          assert a'.order[i] == a.order[i] && a'.order[j] == a.order[j];
        } else {
          assert a'.order[i] == a.order[i] && a'.order[i] in ls;
        }
      }
    }
  }

  /** The counts of the listed logins, added up. */
  function Total(order: seq<string>, count: map<string, nat>): nat {
    if order == [] then 0
    else Total(order[..|order| - 1], count) + (if order[|order| - 1] in count then count[order[|order| - 1]] else 0)
  }

  lemma {:induction false} TotalUpdate(order: seq<string>, count: map<string, nat>, l: string, v: nat)
    ensures l !in order ==> Total(order, count[l := v]) == Total(order, count)
    ensures Distinct(order) && l in order && l in count ==>
      Total(order, count[l := v]) == Total(order, count) - count[l] + v
  {
    if order != [] {
      var o := order[..|order| - 1];
      TotalUpdate(o, count, l, v);
      assert forall x :: x in o ==> x in order;
      if Distinct(order) && l in order && l != order[|order| - 1] {
        var i :| 0 <= i < |order| && order[i] == l;
        assert o[i] == l;
      }
    }
  }

  /** Every pull request is counted once: the counts add up to the number of pull requests. */
  lemma {:induction false} TallyTotal(items: seq<Item>)
    ensures Total(Tally(items).order, Tally(items).count) == |items|
  {
    if items != [] {
      var p := items[..|items| - 1];
      var login := items[|items| - 1].user.login;
      var a := Tally(p);
      TallyTotal(p);
      TallyLogins(p);
      SubmittersLast(items);
      TotalUpdate(a.order, a.count, login, if login in a.count then a.count[login] + 1 else 1);
      if login !in a.count {
        var o' := a.order + [login];
        assert o'[..|o'| - 1] == a.order;
      }
    }
  }

  /** A sparse JavaScript array of logins: `None` is an index that was never assigned. */
  type ByCount = seq<Option<seq<string>>>

  /** `b[c] = [login]`: assigning past the end lengthens the array and leaves holes in between. */
  function Assign(b: ByCount, c: nat, v: seq<string>): (r: ByCount)
    ensures |r| == if c < |b| then |b| else c + 1
    ensures r[c] == Some(v)
    ensures forall i :: 0 <= i < |b| && i != c ==> r[i] == b[i]
    ensures forall i :: |b| <= i < |r| && i != c ==> r[i] == None
  {
    if c < |b| then b[c := Some(v)] else b + seq(c - |b|, _ => None) + [Some(v)]
  }

  /** The logins of `order` whose count is `c`, in the order of `order`. */
  function Bucket(order: seq<string>, count: map<string, nat>, c: nat): seq<string> {
    if order == [] then []
    else
      var x := order[|order| - 1];
      Bucket(order[..|order| - 1], count, c) + (if x in count && count[x] == c then [x] else [])
  }

  /** The largest count of a login of `order`. */
  function MaxCount(order: seq<string>, count: map<string, nat>): nat {
    if order == [] then 0
    else
      var x := order[|order| - 1];
      var m := MaxCount(order[..|order| - 1], count);
      var c := if x in count then count[x] else 0;
      if m < c then c else m
  }

  /**
   * What `byCommits` should be: index c holds the logins with count c, in
   * order, and is a hole when there are none; the array ends just after
   * the largest count.
   */
  function Grouped(order: seq<string>, count: map<string, nat>): (b: ByCount)
    ensures |b| == if order == [] then 0 else MaxCount(order, count) + 1
  {
    var w := if order == [] then 0 else MaxCount(order, count) + 1;
    seq(w, c requires 0 <= c < w =>
      var names := Bucket(order, count, c); if names == [] then None else Some(names))
  }

  /** A login is in the bucket of c exactly when it is listed and its count is c. */
  lemma {:induction false} BucketMembers(order: seq<string>, count: map<string, nat>, c: nat, l: string)
    ensures l in Bucket(order, count, c) <==> l in order && l in count && count[l] == c
  {
    if order != [] {
      var o := order[..|order| - 1];
      BucketMembers(o, count, c, l);
      assert order == o + [order[|order| - 1]];
    }
  }

  /** No listed login has a count above the largest. */
  lemma {:induction false} MaxCountBounds(order: seq<string>, count: map<string, nat>, l: string)
    requires l in order && l in count
    ensures count[l] <= MaxCount(order, count)
  {
    var o := order[..|order| - 1];
    if l in o {
      MaxCountBounds(o, count, l);
    } else {
      assert order == o + [order[|order| - 1]];
    }
  }

  /** Buckets beyond the largest count are empty. */
  lemma BucketBeyond(order: seq<string>, count: map<string, nat>, c: nat)
    requires order == [] || c > MaxCount(order, count)
    ensures Bucket(order, count, c) == []
  {
    if Bucket(order, count, c) != [] {
      var l := Bucket(order, count, c)[0];
      BucketMembers(order, count, c, l);
      MaxCountBounds(order, count, l);
    }
  }

  /** One more login from `order`: the step of the grouping loop. */
  lemma GroupStep(order: seq<string>, count: map<string, nat>, j: nat)
    requires j < |order| && order[j] in count
    ensures var b, x := Grouped(order[..j], count), order[j]; var c := count[x];
      Grouped(order[..j + 1], count)
        == if c < |b| && b[c].Some? then b[c := Some(b[c].value + [x])] else Assign(b, c, [x])
  {
    var o, o', x := order[..j], order[..j + 1], order[j];
    var c := count[x];
    var b, b' := Grouped(o, count), Grouped(o', count);
    assert o'[..j] == o && o'[j] == x;
    var r := if c < |b| && b[c].Some? then b[c := Some(b[c].value + [x])] else Assign(b, c, [x]);
    assert |r| == |b'|;
    forall d | 0 <= d < |b'|
      ensures b'[d] == r[d]
    {
      var names, names' := Bucket(o, count, d), Bucket(o', count, d);
      assert names' == names + (if d == c then [x] else []);
      if d != c {
        assert names' == names;
      }
      assert b'[d] == if names' == [] then None else Some(names');
      if d < |b| {
        assert b[d] == if names == [] then None else Some(names);
      } else {
        BucketBeyond(o, count, d);
      }
      if c < |b| && b[c].Some? {
        assert r[d] == if d == c then Some(b[c].value + [x]) else b[d];
      } else if d == c {
        assert names == [] && names' == [x];
        assert r[d] == Some([x]);
      } else {
        assert r[d] == if d < |b| then b[d] else None;
      }
    }
  }

  /**
   * The grouping loop: each login of `a`, in order, is pushed onto the
   * array at the index of its count, or starts it.
   */
  method GroupByCount(a: Authors) returns (byCommits: ByCount)
    requires forall i :: 0 <= i < |a.order| ==> a.order[i] in a.count
    ensures byCommits == Grouped(a.order, a.count)
  {
    byCommits := [];
    for j := 0 to |a.order|
      invariant byCommits == Grouped(a.order[..j], a.count)
    {
      var author := a.order[j];
      var c := a.count[author];
      GroupStep(a.order, a.count, j);
      if c < |byCommits| && byCommits[c].Some? {
        byCommits := byCommits[c := Some(byCommits[c].value + [author])];
      } else {
        byCommits := Assign(byCommits, c, [author]);
      }
    }
    assert a.order[..|a.order|] == a.order;
  }

  /** A bucket keeps the order of `order`: here, the order of first pull requests. */
  lemma {:induction false} BucketFirst(order: seq<string>, count: map<string, nat>, c: nat, ls: seq<string>)
    requires forall i, j :: 0 <= i < j < |order| ==> First(ls, order[i]) < First(ls, order[j])
    ensures forall i, j :: 0 <= i < j < |Bucket(order, count, c)| ==>
      First(ls, Bucket(order, count, c)[i]) < First(ls, Bucket(order, count, c)[j])
  {
    if order != [] {
      var o, x := order[..|order| - 1], order[|order| - 1];
      BucketFirst(o, count, c, ls);
      var names, names' := Bucket(o, count, c), Bucket(order, count, c);
      if x in count && count[x] == c {
        forall i | 0 <= i < |names|
          ensures First(ls, names[i]) < First(ls, x)
        {
          BucketMembers(o, count, c, names[i]);
          var p :| 0 <= p < |o| && o[p] == names[i];
          assert order[p] == names[i];
        }
        assert names' == names + [x];
        forall i, j | 0 <= i < j < |names'|
          ensures First(ls, names'[i]) < First(ls, names'[j])
        {
          assert names'[i] == names[i];
        }
      } else {
        assert names' == names;
        forall i, j | 0 <= i < j < |names'|
          ensures First(ls, names'[i]) < First(ls, names'[j])
        {
          assert names'[i] == names[i] && names'[j] == names[j];
        }
      }
    }
  }

  /** `byCommits` for the pull requests `items`. */
  function ByCommits(items: seq<Item>): ByCount {
    Grouped(Tally(items).order, Tally(items).count)
  }

  /**
   * After the grouping, a login is listed under count c exactly when it
   * submitted exactly c of the pull requests.
   */
  lemma TallyBuckets(items: seq<Item>, c: nat, l: string)
    ensures (c < |ByCommits(items)| && ByCommits(items)[c].Some? && l in ByCommits(items)[c].value)
      <==> (l in Submitters(items) && multiset(Submitters(items))[l] == c)
  {
    var a := Tally(items);
    TallyLogins(items);
    TallyCounts(items);
    BucketMembers(a.order, a.count, c, l);
    if l in Submitters(items) && multiset(Submitters(items))[l] == c {
      MaxCountBounds(a.order, a.count, l);
    }
  }

  /** Nothing is grouped exactly when there were no pull requests. */
  lemma ByCommitsEmpty(items: seq<Item>)
    ensures ByCommits(items) == [] <==> items == []
  {
    TallyLogins(items);
    if items != [] {
      assert Submitters(items)[0] in Submitters(items);
    }
  }

  /**
   * There is no line for count 0, and the logins under one count are in
   * the order of their first pull request.
   */
  lemma ByCommitsOrdered(items: seq<Item>, c: nat)
    requires c < |ByCommits(items)| && ByCommits(items)[c].Some?
    ensures 1 <= c
    ensures forall i, j :: 0 <= i < j < |ByCommits(items)[c].value| ==>
      First(Submitters(items), ByCommits(items)[c].value[i]) < First(Submitters(items), ByCommits(items)[c].value[j])
  {
    var a := Tally(items);
    var names := ByCommits(items)[c].value;
    assert names == Bucket(a.order, a.count, c);
    TallyLogins(items);
    TallyOrder(items);
    BucketFirst(a.order, a.count, c, Submitters(items));
    BucketMembers(a.order, a.count, c, names[0]);
  }

  /** `count == 1 ? ' PR: ' : ' PRs: '` */
  function Label(c: nat): string {
    if c == 1 then " PR: " else " PRs: "
  }

  /** The header line for the logins with count c. */
  function CountLine(c: nat, names: seq<string>): string {
    NatToString(c) + Label(c) + Join(names, ", ") + "\n<br>"
  }

  /** The lines for the assigned indices of `b`, in ascending order: the order `for (var count in byCommits)` visits them. */
  function CountLines(b: ByCount): string {
    if b == [] then ""
    else CountLines(b[..|b| - 1]) + match b[|b| - 1] {
      case None => ""
      case Some(names) => CountLine(|b| - 1, names)
    }
  }

  /**
   * A line reads back: the count's digits, then ` PR: ` exactly when the
   * count is 1 (` PRs: ` otherwise), the comma-joined logins, and `\n<br>`.
   */
  lemma CountLineLabel(c: nat, names: seq<string>)
    ensures var line, d := CountLine(c, names), NatToString(c);
      |d| + |Label(c)| + 5 <= |line|
      && line[..|d|] == d && DecimalValue(d) == c
      && (line[|d|..|d| + 5] == " PR: " <==> c == 1)
      && line[|d| + |Label(c)|..|line| - 5] == Join(names, ", ")
      && line[|line| - 5..] == "\n<br>"
  {
    var d, lbl := NatToString(c), Label(c);
    DecimalRoundTrip(c);
    Pieces(d, lbl, Join(names, ", "), "\n<br>");
    var line := CountLine(c, names);
    assert line[|d|..|d| + 5] == lbl[..5];
    if c != 1 {
      assert lbl[..5][3] == 's' && " PR: "[3] == ':';
    }
  }

  /** The header gets no count line exactly when every index of the array is a hole. */
  lemma {:induction false} CountLinesEmpty(b: ByCount)
    ensures CountLines(b) == "" <==> forall i :: 0 <= i < |b| ==> b[i].None?
  {
    if b != [] {
      var p := b[..|b| - 1];
      CountLinesEmpty(p);
      assert forall i :: 0 <= i < |p| ==> p[i] == b[i];
      match b[|b| - 1] {
        case None =>
          assert CountLines(b) == CountLines(p) + "";
        case Some(names) =>
          assert |CountLines(b)| >= |CountLine(|b| - 1, names)| >= 1;
      }
    }
  }

  /** One more index adds its line, if it is assigned. */
  lemma CountLinesNext(b: ByCount, c: nat)
    requires c < |b|
    ensures b[c].Some? ==> CountLines(b[..c + 1]) == CountLines(b[..c]) + CountLine(c, b[c].value)
    ensures b[c].None? ==> CountLines(b[..c + 1]) == CountLines(b[..c])
  {
    assert b[..c + 1][..c] == b[..c];
    if b[c].None? {
      assert CountLines(b[..c]) + "" == CountLines(b[..c]);
    }
  }

  /** The loop over `byCommits`: one line per assigned index appended to the header. */
  method AppendCountLines(header: string, byCommits: ByCount) returns (h: string)
    ensures h == header + CountLines(byCommits)
  {
    h := header;
    for c := 0 to |byCommits|
      invariant h == header + CountLines(byCommits[..c])
    {
      CountLinesNext(byCommits, c);
      if byCommits[c].Some? {
        AppendAssoc(header, CountLines(byCommits[..c]), CountLine(c, byCommits[c].value));
        h := h + CountLine(c, byCommits[c].value);
      }
    }
    assert byCommits[..|byCommits|] == byCommits;
  }
}
