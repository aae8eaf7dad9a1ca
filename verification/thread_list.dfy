/** The thread list beside the mailbox: page navigation, the date sections, and the
    classification badges under each thread. */
module ThreadList {
  import opened Wrappers
  import opened Seqs

  // ---------------------------------------------------------------------------------
  // Page navigation

  /** A requested page is taken only when it is between 1 and the page count. */
  function HandlePageChange(current: int, newPage: int, totalPages: int): (r: int)
    ensures 0 < newPage <= totalPages ==> r == newPage
    ensures !(0 < newPage <= totalPages) ==> r == current
  {
    if newPage > 0 && newPage <= totalPages then newPage else current
  }

  /** The page shown never leaves the valid range once inside it; the first page counts
      as valid even when there is no page at all. */
  lemma PageStaysInRange(current: int, newPage: int, totalPages: int)
    requires 1 <= current && (current <= totalPages || current == 1)
    ensures var r := HandlePageChange(current, newPage, totalPages);
      1 <= r && (r <= totalPages || r == 1)
  {
  }

  /** The previous-page arrow: active above page 1. */
  function PreviousClick(current: int): (r: Option<int>)
    ensures r.Some? <==> current > 1
    ensures r.Some? ==> r.value == current - 1
  {
    if current > 1 then Some(current - 1) else None
  }

  /** The next-page arrow: active below the last page. */
  function NextClick(current: int, totalPages: int): (r: Option<int>)
    ensures r.Some? <==> current < totalPages
    ensures r.Some? ==> r.value == current + 1
  {
    if current < totalPages then Some(current + 1) else None
  }

  /** Inside the range every active arrow moves by exactly one page. */
  lemma ArrowsMoveOnePage(current: int, totalPages: int)
    requires 1 <= current <= totalPages
    ensures PreviousClick(current).Some? ==>
      HandlePageChange(current, PreviousClick(current).value, totalPages) == current - 1
    ensures NextClick(current, totalPages).Some? ==>
      HandlePageChange(current, NextClick(current, totalPages).value, totalPages) == current + 1
  {
  }

  /** When the page count drops two or more below the page shown (another tab, fewer
      threads), the active previous arrow requests a page that is still out of range, so
      the page does not change. */
  lemma PreviousStuckPastEnd(current: int, totalPages: int)
    requires current > 1 && current - 1 > totalPages
    ensures PreviousClick(current).Some?
    ensures HandlePageChange(current, PreviousClick(current).value, totalPages) == current
  {
  }

  // ---------------------------------------------------------------------------------
  // Labels and badges

  /** The labels of a thread's emails, each once, in the order they first appear;
      nothing for a missing list. */
  function SystemLabelList(emails: Option<seq<seq<string>>>): (r: seq<string>)
    ensures emails.None? ==> r == []
    ensures NoDup(r)
  {
    if emails.None? then [] else Dedup(Flatten(emails.value))
  }

  /** A label is listed exactly when some email carries it. */
  lemma SystemLabelListMembers(emails: seq<seq<string>>, x: string)
    ensures x in SystemLabelList(Some(emails)) <==> exists i :: 0 <= i < |emails| && x in emails[i]
  {
    FlattenMembers(emails, x);
    var r := SystemLabelList(Some(emails));
    var f := Flatten(emails);
    if x in r {
      var k :| 0 <= k < |r| && r[k] == x;
    }
    if x in f {
      var k :| 0 <= k < |f| && f[k] == x;
    }
  }

  /** Labels are listed in order of first appearance: the labels of the first `k` emails
      come first, in the same order. */
  lemma SystemLabelListOrder(emails: seq<seq<string>>, k: nat)
    requires k <= |emails|
    ensures IsPrefix(SystemLabelList(Some(emails[..k])), SystemLabelList(Some(emails)))
  {
    var f := Flatten(emails);
    FlattenPrefix(emails, k);
    var m := |Flatten(emails[..k])|;
    assert f[..m] == Flatten(emails[..k]);
    DedupPrefix(f, m);
  }

  /** The badge styles. */
  datatype Variant = Destructive | Default | Secondary

  /** The badge style of a label; the comparison is case-sensitive. */
  function BadgeVariant(lbl: string): (v: Variant)
    ensures v == Destructive <==> lbl == "Important"
    ensures v == Default <==> lbl == "Work" || lbl == "Personal"
    ensures v == Secondary <==> lbl !in {"Important", "Work", "Personal"}
  {
    match lbl
    case "Important" => Destructive
    case "Work" => Default
    case "Personal" => Default
    case _ => Secondary
  }

  /** The badges under a thread: none when it has no email; otherwise one per listed label
      except `unread`, each with its style. */
  function Badges(emails: seq<seq<string>>): (r: seq<(string, Variant)>)
    ensures |emails| == 0 ==> r == []
    ensures forall i :: 0 <= i < |r| ==> r[i].0 != "unread" && r[i].1 == BadgeVariant(r[i].0)
    ensures forall i :: 0 <= i < |r| ==> r[i].0 in SystemLabelList(Some(emails))
  {
    if |emails| == 0 then [] else Shown(SystemLabelList(Some(emails)))
  }

  /** Every listed label except `unread` is shown as a badge when the thread has an email. */
  lemma BadgesCoverLabels(emails: seq<seq<string>>, x: string)
    requires |emails| > 0 && x != "unread"
    requires exists i :: 0 <= i < |emails| && x in emails[i]
    ensures exists i :: 0 <= i < |Badges(emails)| && Badges(emails)[i].0 == x
  {
    SystemLabelListMembers(emails, x);
    var l := SystemLabelList(Some(emails));
    var j :| 0 <= j < |l| && l[j] == x;
    ShownCovers(l, j);
    assert Badges(emails) == Shown(l);
  }

  function Shown(labels: seq<string>): (r: seq<(string, Variant)>)
    ensures forall i :: 0 <= i < |r| ==> r[i].0 != "unread" && r[i].1 == BadgeVariant(r[i].0)
    ensures forall i :: 0 <= i < |r| ==> r[i].0 in labels
  {
    if |labels| == 0 then []
    else
      var rest := Shown(labels[1..]);
      var here := if labels[0] == "unread" then [] else [(labels[0], BadgeVariant(labels[0]))];
      here + rest
  }

  /** Every label other than `unread` gets a badge. */
  lemma {:induction false} ShownCovers(labels: seq<string>, j: nat)
    requires j < |labels| && labels[j] != "unread"
    ensures exists i :: 0 <= i < |Shown(labels)| && Shown(labels)[i].0 == labels[j]
  {
    var r := Shown(labels);
    if j == 0 {
      assert r[0].0 == labels[0];
    } else {
      ShownCovers(labels[1..], j - 1);
      var rest := Shown(labels[1..]);
      var i :| 0 <= i < |rest| && rest[i].0 == labels[1..][j - 1];
      var h := |r| - |rest|;
      assert r[h + i] == rest[i];
    }
  }

  // ---------------------------------------------------------------------------------
  // Date sections

  /** The key sequence of `xs`. */
  function KeysOf<T>(xs: seq<T>, key: T -> string): (r: seq<string>)
    ensures |r| == |xs|
    ensures forall i :: 0 <= i < |xs| ==> r[i] == key(xs[i])
  {
    seq(|xs|, i requires 0 <= i < |xs| => key(xs[i]))
  }

  /** The elements of `xs` with key `k`, in order. */
  function WithKey<T(==)>(xs: seq<T>, key: T -> string, k: string): (r: seq<T>)
    ensures |r| <= |xs|
  {
    if |xs| == 0 then []
    else
      var init := xs[..|xs| - 1];
      var x := xs[|xs| - 1];
      WithKey(init, key, k) + (if key(x) == k then [x] else [])
  }

  /** `WithKey` keeps exactly the elements with key `k`. */
  lemma {:induction false} WithKeyMembers<T>(xs: seq<T>, key: T -> string, k: string)
    ensures var r := WithKey(xs, key, k);
      forall i :: 0 <= i < |r| ==> r[i] in xs && key(r[i]) == k
    ensures var r := WithKey(xs, key, k);
      forall i :: 0 <= i < |xs| && key(xs[i]) == k ==> xs[i] in r
  {
    if |xs| > 0 {
      var init := xs[..|xs| - 1];
      var x := xs[|xs| - 1];
      WithKeyMembers(init, key, k);
      assert xs == init + [x];
      var r := WithKey(xs, key, k);
      var r0 := WithKey(init, key, k);
      assert r == r0 + (if key(x) == k then [x] else []);
      forall i | 0 <= i < |r| ensures r[i] in xs && key(r[i]) == k {
        if i < |r0| {
          var j :| 0 <= j < |init| && init[j] == r0[i];
          assert xs[j] == init[j];
        } else {
          assert r[i] == xs[|xs| - 1];
        }
      }
      forall i | 0 <= i < |xs| && key(xs[i]) == k ensures xs[i] in r {
        if i < |init| {
          assert xs[i] == init[i] && init[i] in r0;
        }
      }
    }
  }

  /** One step of the `reduce`: push `x` onto the section for its key, opening a new
      section at the end when there is none yet. */
  function AddTo<T(==)>(g: seq<(string, seq<T>)>, k: string, x: T): (r: seq<(string, seq<T>)>)
  {
    if |g| == 0 then [(k, [x])]
    else if g[0].0 == k then [(k, g[0].1 + [x])] + g[1..]
    else [g[0]] + AddTo(g[1..], k, x)
  }

  /** The `reduce` that builds the sections, keyed in order of first appearance. */
  function GroupBy<T(==)>(xs: seq<T>, key: T -> string): seq<(string, seq<T>)> {
    if |xs| == 0 then []
    else
      var init := xs[..|xs| - 1];
      var x := xs[|xs| - 1];
      AddTo(GroupBy(init, key), key(x), x)
  }

  /** The section keys of a grouping, in order. */
  function SectionKeys<T>(g: seq<(string, seq<T>)>): (r: seq<string>)
    ensures |r| == |g|
    ensures forall i :: 0 <= i < |g| ==> r[i] == g[i].0
  {
    seq(|g|, i requires 0 <= i < |g| => g[i].0)
  }

  /** Each section holds exactly the elements of `xs` with its key, in their order. */
  predicate Sections<T(==)>(g: seq<(string, seq<T>)>, xs: seq<T>, key: T -> string) {
    forall i :: 0 <= i < |g| ==> g[i].1 == WithKey(xs, key, g[i].0)
  }

  /** What a grouping should be: one section per distinct key, in first-appearance order,
      holding exactly the elements with that key, in their order. */
  predicate IsGrouping<T(==)>(g: seq<(string, seq<T>)>, xs: seq<T>, key: T -> string) {
    SectionKeys(g) == Dedup(KeysOf(xs, key)) && Sections(g, xs, key)
  }

  lemma AddToExisting<T>(g: seq<(string, seq<T>)>, k: string, x: T, j: nat)
    requires j < |g| && g[j].0 == k
    requires forall i :: 0 <= i < j ==> g[i].0 != k
    ensures |AddTo(g, k, x)| == |g|
    ensures forall i :: 0 <= i < |g| ==> AddTo(g, k, x)[i].0 == g[i].0
    ensures forall i :: 0 <= i < |g| && i != j ==> AddTo(g, k, x)[i].1 == g[i].1
    ensures AddTo(g, k, x)[j].1 == g[j].1 + [x]
    decreases j
  {
    if j > 0 {
      AddToExisting(g[1..], k, x, j - 1);
    }
  }

  lemma AddToNew<T>(g: seq<(string, seq<T>)>, k: string, x: T)
    requires forall i :: 0 <= i < |g| ==> g[i].0 != k
    ensures AddTo(g, k, x) == g + [(k, [x])]
  {
    if |g| > 0 {
      AddToNew(g[1..], k, x);
    }
  }

  lemma KeysSnoc<T>(init: seq<T>, x: T, key: T -> string)
    ensures KeysOf(init + [x], key) == KeysOf(init, key) + [key(x)]
  {
  }

  lemma WithKeySnoc<T>(init: seq<T>, x: T, key: T -> string, k: string)
    ensures WithKey(init + [x], key, k) == WithKey(init, key, k) + (if key(x) == k then [x] else [])
  {
    assert (init + [x])[..|init + [x]| - 1] == init;
  }

  /** No element has a key that no element has. */
  lemma {:induction false} WithKeyNone<T>(xs: seq<T>, key: T -> string, k: string)
    requires forall i :: 0 <= i < |xs| ==> key(xs[i]) != k
    ensures WithKey(xs, key, k) == []
  {
    if |xs| > 0 {
      WithKeyNone(xs[..|xs| - 1], key, k);
    }
  }

  /** Appending a key deduplicates to appending it once, when it is new. */
  lemma DedupSnoc(ks: seq<string>, k: string)
    ensures k in Dedup(ks) ==> Dedup(ks + [k]) == Dedup(ks)
    ensures k !in Dedup(ks) ==> Dedup(ks + [k]) == Dedup(ks) + [k]
  {
    assert (ks + [k])[..|ks + [k]| - 1] == ks;
  }

  /** A key missing from the deduplicated keys is the key of no element. */
  lemma NewKeyAbsent<T>(init: seq<T>, key: T -> string, k: string)
    requires k !in Dedup(KeysOf(init, key))
    ensures forall i :: 0 <= i < |init| ==> key(init[i]) != k
  {
    var ks0 := KeysOf(init, key);
    assert k !in ks0;
    forall i | 0 <= i < |init| ensures key(init[i]) != k {
      assert ks0[i] == key(init[i]);
    }
  }

  /** Pushing onto the one section with the element's key keeps the sections exact. */
  lemma SectionsExisting<T>(g: seq<(string, seq<T>)>, init: seq<T>, x: T, key: T -> string, j: nat)
    requires Sections(g, init, key)
    requires j < |g| && g[j].0 == key(x)
    requires forall i :: 0 <= i < |g| && i != j ==> g[i].0 != key(x)
    ensures Sections(AddTo(g, key(x), x), init + [x], key)
  {
    var k := key(x);
    AddToExisting(g, k, x, j);
    var g' := AddTo(g, k, x);
    forall i | 0 <= i < |g'| ensures g'[i].1 == WithKey(init + [x], key, g'[i].0) {
      WithKeySnoc(init, x, key, g[i].0);
    }
  }

  /** Opening a section for a key no element had keeps the sections exact. */
  lemma SectionsNew<T>(g: seq<(string, seq<T>)>, init: seq<T>, x: T, key: T -> string)
    requires Sections(g, init, key)
    requires forall i :: 0 <= i < |g| ==> g[i].0 != key(x)
    requires forall i :: 0 <= i < |init| ==> key(init[i]) != key(x)
    ensures Sections(AddTo(g, key(x), x), init + [x], key)
  {
    var k := key(x);
    AddToNew(g, k, x);
    WithKeyNone(init, key, k);
    WithKeySnoc(init, x, key, k);
    var g' := g + [(k, [x])];
    forall i | 0 <= i < |g'| ensures g'[i].1 == WithKey(init + [x], key, g'[i].0) {
      if i < |g| {
        WithKeySnoc(init, x, key, g[i].0);
      }
    }
  }

  /** The section keys after a step: unchanged for a known key, else the new key appended. */
  lemma SectionKeysStep<T>(g: seq<(string, seq<T>)>, k: string, x: T)
    requires NoDup(SectionKeys(g))
    ensures k in SectionKeys(g) ==> SectionKeys(AddTo(g, k, x)) == SectionKeys(g)
    ensures k !in SectionKeys(g) ==> SectionKeys(AddTo(g, k, x)) == SectionKeys(g) + [k]
  {
    var ks := SectionKeys(g);
    if k in ks {
      var j :| 0 <= j < |ks| && ks[j] == k;
      forall i | 0 <= i < j ensures g[i].0 != k {
        assert ks[i] != ks[j];
      }
      AddToExisting(g, k, x, j);
    } else {
      forall i | 0 <= i < |g| ensures g[i].0 != k {
        assert ks[i] == g[i].0;
      }
      AddToNew(g, k, x);
    }
  }

  /** The sections after a step stay exact. */
  lemma SectionsStep<T>(g: seq<(string, seq<T>)>, init: seq<T>, x: T, key: T -> string)
    requires IsGrouping(g, init, key)
    ensures Sections(AddTo(g, key(x), x), init + [x], key)
  {
    var k := key(x);
    var ks := SectionKeys(g);
    if k in ks {
      var j :| 0 <= j < |ks| && ks[j] == k;
      forall i | 0 <= i < |g| && i != j ensures g[i].0 != k {
        assert ks[i] != ks[j];
      }
      SectionsExisting(g, init, x, key, j);
    } else {
      NewKeyAbsent(init, key, k);
      forall i | 0 <= i < |g| ensures g[i].0 != k {
        assert ks[i] == g[i].0;
      }
      SectionsNew(g, init, x, key);
    }
  }

  /** One step of the `reduce` keeps a grouping a grouping. */
  lemma GroupStep<T>(g: seq<(string, seq<T>)>, init: seq<T>, x: T, key: T -> string)
    requires IsGrouping(g, init, key)
    ensures IsGrouping(AddTo(g, key(x), x), init + [x], key)
  {
    SectionsStep(g, init, x, key);
    SectionKeysStep(g, key(x), x);
    KeysSnoc(init, x, key);
    DedupSnoc(KeysOf(init, key), key(x));
  }

  /** The `reduce` builds the grouping. */
  lemma {:induction false} GroupByIsGrouping<T>(xs: seq<T>, key: T -> string)
    ensures IsGrouping(GroupBy(xs, key), xs, key)
  {
    if |xs| > 0 {
      var init := xs[..|xs| - 1];
      var x := xs[|xs| - 1];
      GroupByIsGrouping(init, key);
      GroupStep(GroupBy(init, key), init, x, key);
      LastSplit(xs);
    }
  }

  lemma LastSplit<T>(xs: seq<T>)
    requires |xs| > 0
    ensures xs[..|xs| - 1] + [xs[|xs| - 1]] == xs
  {
  }

  /** In a grouping, an element lies in the section for its key. */
  lemma GroupingPlaces<T>(g: seq<(string, seq<T>)>, xs: seq<T>, key: T -> string, p: nat)
    requires IsGrouping(g, xs, key) && p < |xs|
    ensures exists j :: 0 <= j < |g| && xs[p] in g[j].1 && g[j].0 == key(xs[p])
  {
    var ks := KeysOf(xs, key);
    var d := Dedup(ks);
    assert ks[p] == key(xs[p]);
    var w :| 0 <= w < |d| && d[w] == key(xs[p]);
    assert g[w].0 == SectionKeys(g)[w] == key(xs[p]);
    WithKeyMembers(xs, key, key(xs[p]));
    assert xs[p] in g[w].1;
  }

  /** In a grouping, no element lies in two sections. */
  lemma GroupingDisjoint<T>(g: seq<(string, seq<T>)>, xs: seq<T>, key: T -> string, p: nat)
    requires IsGrouping(g, xs, key) && p < |xs|
    ensures forall j, j' :: 0 <= j < |g| && 0 <= j' < |g| && xs[p] in g[j].1 && xs[p] in g[j'].1 ==> j == j'
  {
    var d := Dedup(KeysOf(xs, key));
    forall j, j' | 0 <= j < |g| && 0 <= j' < |g| && xs[p] in g[j].1 && xs[p] in g[j'].1
      ensures j == j'
    {
      WithKeyMembers(xs, key, g[j].0);
      WithKeyMembers(xs, key, g[j'].0);
      var a :| 0 <= a < |g[j].1| && g[j].1[a] == xs[p];
      var b :| 0 <= b < |g[j'].1| && g[j'].1[b] == xs[p];
      assert d[j] == g[j].0 == key(xs[p]) == g[j'].0 == d[j'];
    }
  }

  /** In a grouping, no section is empty. */
  lemma GroupingNonEmpty<T>(g: seq<(string, seq<T>)>, xs: seq<T>, key: T -> string)
    requires IsGrouping(g, xs, key)
    ensures forall j :: 0 <= j < |g| ==> |g[j].1| > 0
  {
    var ks := KeysOf(xs, key);
    var d := Dedup(ks);
    forall j | 0 <= j < |g| ensures |g[j].1| > 0 {
      var q :| 0 <= q < |ks| && ks[q] == d[j];
      assert g[j].0 == SectionKeys(g)[j] == d[j];
      WithKeyMembers(xs, key, d[j]);
      assert xs[q] in g[j].1;
    }
  }

  /** Every element lands in exactly one section: the one for its key. */
  lemma EachInOneSection<T>(xs: seq<T>, key: T -> string, p: nat)
    requires p < |xs|
    ensures exists j :: 0 <= j < |GroupBy(xs, key)| && xs[p] in GroupBy(xs, key)[j].1 && GroupBy(xs, key)[j].0 == key(xs[p])
    ensures var g := GroupBy(xs, key);
      forall j, j' :: 0 <= j < |g| && 0 <= j' < |g| && xs[p] in g[j].1 && xs[p] in g[j'].1 ==> j == j'
    ensures var g := GroupBy(xs, key);
      forall j :: 0 <= j < |g| ==> |g[j].1| > 0
  {
    GroupByIsGrouping(xs, key);
    var g := GroupBy(xs, key);
    GroupingPlaces(g, xs, key, p);
    GroupingDisjoint(g, xs, key, p);
    GroupingNonEmpty(g, xs, key);
  }

  /** The list's view of a thread: the sent date of each email and its classifications. */
  datatype EmailSummary = EmailSummary(sentAt: int, sysClassifications: seq<string>)

  datatype ThreadSummary = ThreadSummary(id: string, subject: string, emails: seq<EmailSummary>)

  /** The section key of a thread: the day of its first email, or of now when it has
      none. `day` is the calendar-day formatting, in local time. */
  function DayKey(t: ThreadSummary, day: int -> string, now: int): string {
    day(if |t.emails| > 0 then t.emails[0].sentAt else now)
  }

  /** The section key as a function of the thread alone. */
  function DayKeyOf(day: int -> string, now: int): ThreadSummary -> string {
    (t: ThreadSummary) => DayKey(t, day, now)
  }

  /** The date sections of the listed threads. */
  function GroupedThreads(threads: seq<ThreadSummary>, day: int -> string, now: int): seq<(string, seq<ThreadSummary>)> {
    GroupBy(threads, DayKeyOf(day, now))
  }

  /** Every listed thread appears in exactly one date section, the one for the day of its
      first email, and no section is empty. */
  lemma EachThreadInOneSection(threads: seq<ThreadSummary>, day: int -> string, now: int)
    ensures var g := GroupedThreads(threads, day, now);
      forall p :: 0 <= p < |threads| ==>
        exists j :: 0 <= j < |g| && threads[p] in g[j].1 && g[j].0 == DayKey(threads[p], day, now)
    ensures var g := GroupedThreads(threads, day, now);
      forall p, j, j' ::
        (0 <= p < |threads| && 0 <= j < |g| && 0 <= j' < |g| && threads[p] in g[j].1 && threads[p] in g[j'].1)
        ==> j == j'
    ensures var g := GroupedThreads(threads, day, now);
      forall j :: 0 <= j < |g| ==> |g[j].1| > 0
  {
    var key := DayKeyOf(day, now);
    var g := GroupedThreads(threads, day, now);
    forall p | 0 <= p < |threads|
      ensures exists j :: 0 <= j < |g| && threads[p] in g[j].1 && g[j].0 == DayKey(threads[p], day, now)
      ensures forall j, j' :: 0 <= j < |g| && 0 <= j' < |g| && threads[p] in g[j].1 && threads[p] in g[j'].1 ==> j == j'
    {
      EachInOneSection(threads, key, p);
    }
    if |threads| > 0 {
      EachInOneSection(threads, key, 0);
    }
  }
}
