/** The chat list the bot shows before an export: the progress bar text,
    which chats are hidden (birthdays, weddings, congratulations) or
    unnamed, and how contacts are split into groups, private chats and
    hidden chats. */
module ChatList {
  import opened Text
  import opened Collections
  import StableSort
  import VKTeams

  type Contact = VKTeams.Contact

  // ---------------------------------------------------------- progress bar

  const FullBlock: char := '\U{2588}'
  const LightShade: char := '\U{2591}'

  /** Python's `int(a / b)`: the quotient truncated toward zero. */
  function TruncDiv(a: int, b: int): (q: int)
    requires b != 0
    ensures a >= 0 && b > 0 ==> q * b <= a < (q + 1) * b
    ensures (a >= 0) == (b > 0) || a == 0 ==> q >= 0
  {
    var m := if a >= 0 then a else -a;
    var n := if b > 0 then b else -b;
    if (a >= 0) == (b > 0) then m / n else -(m / n)
  }

  /** How many of the `width` cells are filled. */
  function Filled(current: int, total: int, width: int): int
    requires total != 0
  {
    TruncDiv(width * current, total)
  }

  /** `"█" * filled + "░" * (width - filled)` */
  function BarOf(filled: int, width: int): string
  {
    Repeat(FullBlock, filled) + Repeat(LightShade, width - filled)
  }

  /** The whole percentage of `current` out of `total`, truncated. */
  function Percent(current: int, total: int): (p: int)
    requires total != 0
    ensures 0 <= current && 0 < total ==> p * total <= 100 * current < (p + 1) * total
  {
    TruncDiv(current * 100, total)
  }

  /** `make_progress_bar`: for a zero total `width` empty cells; otherwise
      the bar, a space, `current/total` and the percentage in brackets.
      The contract spells out the format string; what its parts mean is
      stated by `Percent`, `FilledBounds`, `ProgressBarShape` and
      `PercentRange`. */
  function ProgressBar(current: int, total: int, width: int): (r: string)
    ensures total == 0 ==> |r| == (if width < 0 then 0 else width)
    ensures total == 0 ==> forall i :: 0 <= i < |r| ==> r[i] == LightShade
    ensures total != 0 ==>
      r == BarOf(Filled(current, total, width), width) + " " + IntToString(current) + "/"
           + IntToString(total) + " (" + IntToString(Percent(current, total)) + "%)"
  {
    if total == 0 then Repeat(LightShade, width)
    else
      var bar := BarOf(Filled(current, total, width), width);
      bar + " " + IntToString(current) + "/" + IntToString(total)
        + " (" + IntToString(Percent(current, total)) + "%)"
  }

  /** Progress within the total shows a percentage from 0 to 100, and 100
      exactly when the work is done. */
  lemma PercentRange(current: int, total: int)
    requires 0 <= current <= total && total > 0
    ensures 0 <= Percent(current, total) <= 100
    ensures Percent(current, total) == 100 <==> current == total
  {
    FilledBounds(current, total, 100);
    assert Percent(current, total) == Filled(current, total, 100);
  }

  /** `a <= b` scales by a non-negative factor. */
  lemma MulMono(a: int, b: int, c: int)
    requires a <= b && c >= 0
    ensures a * c <= b * c
  {
    assert (b - a) * c >= 0;
  }

  /** For progress within the total, the filled count is the floor of the
      exact share: at most `width`, and equal to it exactly when the work is
      done. */
  lemma FilledBounds(current: int, total: int, width: int)
    requires 0 <= current <= total && total > 0 && width > 0
    ensures var f := Filled(current, total, width);
      && f * total <= width * current < (f + 1) * total
      && 0 <= f <= width
      && (f == width <==> current == total)
  {
    var f := Filled(current, total, width);
    MulMono(0, current, width);
    assert 0 <= width * current;
    MulMono(current, total, width);
    assert width * current <= total * width;
    if f > width {
      MulMono(width + 1, f, total);
    }
    if f < 0 {
      MulMono(f + 1, 0, total);
    }
    if current == total && f < width {
      MulMono(f + 1, width, total);
    }
    if current < total {
      MulMono(current + 1, total, width);
    }
  }

  /** The bar has `width` cells, the filled ones first. */
  lemma BarCells(f: int, width: int)
    requires 0 <= f <= width
    ensures |BarOf(f, width)| == width
    ensures forall i :: 0 <= i < width ==> (BarOf(f, width)[i] == FullBlock <==> i < f)
  {
    var b := BarOf(f, width);
    forall i | 0 <= i < width
      ensures b[i] == FullBlock <==> i < f
    {
      if i < f {
        assert b[i] == Repeat(FullBlock, f)[i];
      } else {
        assert b[i] == Repeat(LightShade, width - f)[i - f];
      }
    }
  }

  /** For progress within the total the bar is `width` cells, the filled
      ones first, and it is full exactly when the work is done. */
  lemma ProgressBarShape(current: int, total: int, width: int)
    requires 0 <= current <= total && total > 0 && width > 0
    ensures var b := ProgressBar(current, total, width)[..width];
      && (forall i :: 0 <= i < width ==> (b[i] == FullBlock <==> i < Filled(current, total, width)))
      && ((forall i :: 0 <= i < width ==> b[i] == FullBlock) <==> current == total)
  {
    var f := Filled(current, total, width);
    FilledBounds(current, total, width);
    BarCells(f, width);
    var b := ProgressBar(current, total, width)[..width];
    assert b == BarOf(f, width);
    if current < total {
      assert b[f] != FullBlock;
    }
  }

  /** More progress never fills fewer cells. */
  lemma FilledMonotone(c1: int, c2: int, total: int, width: int)
    requires 0 <= c1 <= c2 && total > 0 && width >= 0
    ensures Filled(c1, total, width) <= Filled(c2, total, width)
  {
    MulMono(c1, c2, width);
    MulMono(0, c1, width);
    var f1 := Filled(c1, total, width);
    var f2 := Filled(c2, total, width);
    if f1 > f2 {
      MulMono(f2 + 1, f1, total);
    }
  }

  // ------------------------------------------------------------- hidden chats

  /** The letters `[а-яёa-z]` that make "др" part of a longer word. */
  predicate IsWordLetter(c: char)
  {
    ('\U{0430}' <= c <= '\U{044F}') || c == '\U{0451}' || ('a' <= c <= 'z')
  }

  /** "др" stands at `i` as a whole word. */
  predicate DrAt(s: string, i: nat)
  {
    && i + 2 <= |s|
    && s[i] == 'д' && s[i + 1] == 'р'
    && (i == 0 || !IsWordLetter(s[i - 1]))
    && (i + 2 == |s| || !IsWordLetter(s[i + 2]))
  }

  /** `re.search(r'(?<![а-яёa-z])др(?![а-яёa-z])', s)` from position `i`. */
  predicate HasWordDrFrom(s: string, i: nat)
    decreases |s| - i
  {
    i + 2 <= |s| && (DrAt(s, i) || HasWordDrFrom(s, i + 1))
  }

  lemma {:induction false} HasWordDrFromAt(s: string, i: nat, k: nat)
    requires i <= k && DrAt(s, k)
    ensures HasWordDrFrom(s, i)
    decreases k - i
  {
    if i < k {
      HasWordDrFromAt(s, i + 1, k);
    }
  }

  lemma {:induction false} HasWordDrFromWitness(s: string, i: nat) returns (k: nat)
    requires HasWordDrFrom(s, i)
    ensures i <= k && DrAt(s, k)
    decreases |s| - i
  {
    if DrAt(s, i) {
      k := i;
    } else {
      k := HasWordDrFromWitness(s, i + 1);
    }
  }

  /** The search finds "др" exactly when it stands somewhere as a word. */
  lemma HasWordDrSpec(s: string)
    ensures HasWordDrFrom(s, 0) <==> exists k :: DrAt(s, k)
  {
    if HasWordDrFrom(s, 0) {
      var k := HasWordDrFromWitness(s, 0);
    }
    if exists k :: DrAt(s, k) {
      var k :| DrAt(s, k);
      HasWordDrFromAt(s, 0, k);
    }
  }

  /** The phrase rules of `is_hidden_chat`, on a lower-cased name. */
  predicate HiddenPhrase(s: string)
  {
    || Contains(s, "день рождени")
    || (Contains(s, "рождени") && (Contains(s, "сын") || Contains(s, "дочь") || Contains(s, "дочер")))
    || Contains(s, "поздравлен")
    || Contains(s, "свадьб")
    || Contains(s, "женил")
    || Contains(s, "стал отцом")
    || Contains(s, "стала мамой")
  }

  /** `is_hidden_chat`: a phrase rule matches the lower-cased name, or
      "др" stands in it as a word. */
  function IsHidden(name: string): (r: bool)
    ensures r <==> HiddenPhrase(Lower(name)) || exists k :: DrAt(Lower(name), k)
  {
    HasWordDrSpec(Lower(name));
    HiddenPhrase(Lower(name)) || HasWordDrFrom(Lower(name), 0)
  }

  lemma LowerAppend(a: string, b: string)
    ensures Lower(a + b) == Lower(a) + Lower(b)
  {
    assert forall i :: 0 <= i < |a + b| ==> Lower(a + b)[i] == (Lower(a) + Lower(b))[i];
  }

  /** A phrase rule that matches a name still matches wherever the name is
      embedded. */
  lemma HiddenWithin(pre: string, name: string, post: string)
    requires HiddenPhrase(Lower(name))
    ensures IsHidden(pre + name + post)
  {
    LowerAppend(pre, name);
    LowerAppend(pre + name, post);
    PhraseWithin(Lower(pre), Lower(name), Lower(post));
  }

  lemma PhraseWithin(a: string, l: string, b: string)
    requires HiddenPhrase(l)
    ensures HiddenPhrase(a + l + b)
  {
    forall sub | Contains(l, sub)
      ensures Contains(a + l + b, sub)
    {
      ContainsInfix(a, l, b, sub);
    }
  }

  /** "ДР" standing alone, between non-letters, hides a chat. */
  lemma DrWordHidden(pre: string, post: string)
    requires pre == [] || !IsWordLetter(LowerChar(pre[|pre| - 1]))
    requires post == [] || !IsWordLetter(LowerChar(post[0]))
    ensures IsHidden(pre + "ДР" + post)
  {
    LowerAppend(pre, "ДР");
    LowerAppend(pre + "ДР", post);
    var s := Lower(pre + "ДР" + post);
    assert Lower("ДР") == "др";
    assert s == Lower(pre) + "др" + Lower(post);
    var k := |pre|;
    assert s[k] == 'д' && s[k + 1] == 'р';
    if k > 0 {
      assert s[k - 1] == LowerChar(pre[k - 1]);
    }
    if post != [] {
      assert s[k + 2] == LowerChar(post[0]);
    }
    HasWordDrFromAt(s, 0, k);
  }

  /** "др" inside a word does not count: "Адрес" is not hidden. */
  lemma DrInsideWordIgnored()
    ensures !HasWordDrFrom(Lower("Адрес"), 0)
  {
    var s := Lower("Адрес");
    assert s == "адрес";
    if HasWordDrFrom(s, 0) {
      var k := HasWordDrFromWitness(s, 0);
    }
  }

  // ----------------------------------------------------------- unnamed chats

  const GroupMarker := "@chat.agent"

  /** `is_unnamed_chat`: a chat whose name and friendly name are both empty
      or raw group ids. */
  function IsUnnamed(c: Contact): (r: bool)
    ensures r <==> (c.name == "" || EndsWith(c.name, GroupMarker))
                   && (c.friendly == "" || EndsWith(c.friendly, GroupMarker))
  {
    if c.name != "" && !EndsWith(c.name, GroupMarker) then false
    else if c.friendly != "" && !EndsWith(c.friendly, GroupMarker) then false
    else true
  }

  // --------------------------------------------------------------- partition

  predicate IsGroup(c: Contact)
  {
    Contains(c.sn, GroupMarker)
  }

  /** The text the hidden test looks at: name, else friendly name, else id. */
  function HiddenLabel(c: Contact): string
  {
    FirstNonEmpty([c.name, c.friendly, c.sn])
  }

  /** The sort key of private chats: those with history first, then by
      lower-cased name. */
  function PrivateKey(c: Contact): (bool, string)
  {
    (!c.hasMessages, Lower(c.name))
  }

  /** Python's tuple order on `(bool, str)`, with False before True. */
  predicate KeyLe(a: (bool, string), b: (bool, string))
  {
    (!a.0 && b.0) || (a.0 == b.0 && StrLe(a.1, b.1))
  }

  lemma KeyOrder()
    ensures StableSort.TotalPreorder(KeyLe)
  {
    forall a: (bool, string), b: (bool, string)
      ensures KeyLe(a, b) || KeyLe(b, a)
    {
      StrLeTotal(a.1, b.1);
    }
    forall a: (bool, string), b: (bool, string), c: (bool, string) | KeyLe(a, b) && KeyLe(b, c)
      ensures KeyLe(a, c)
    {
      if a.0 == b.0 && b.0 == c.0 {
        StrLeTrans(a.1, b.1, c.1);
      }
    }
  }

  /** `sorted(..., key=...)` of the private chats: ordered by key, a
      permutation, and stable, so chats with equal keys keep their order. */
  function SortPrivate(cs: seq<Contact>): (r: seq<Contact>)
    ensures StableSort.Sorted(r, PrivateKey, KeyLe)
    ensures multiset(r) == multiset(cs)
    ensures forall k :: StableSort.WithKey(r, PrivateKey, k) == StableSort.WithKey(cs, PrivateKey, k)
  {
    KeyOrder();
    StableSort.Sort(cs, PrivateKey, KeyLe)
  }

  /** Dropping elements keeps a sorted list sorted. */
  lemma {:induction false} FilterSorted<T, K>(s: seq<T>, p: T -> bool, key: T -> K, le: (K, K) -> bool)
    requires StableSort.Sorted(s, key, le)
    ensures StableSort.Sorted(Filter(s, p), key, le)
    decreases |s|
  {
    if s != [] {
      var tail := s[1..];
      assert StableSort.Sorted(tail, key, le) by {
        forall i, j | 0 <= i < j < |tail|
          ensures le(key(tail[i]), key(tail[j]))
        {
          assert tail[i] == s[i + 1] && tail[j] == s[j + 1];
        }
      }
      FilterSorted(tail, p, key, le);
      var rest := Filter(tail, p);
      if p(s[0]) {
        var r := [s[0]] + rest;
        assert Filter(s, p) == r;
        forall i, j | 0 <= i < j < |r|
          ensures le(key(r[i]), key(r[j]))
        {
          assert r[j] == rest[j - 1];
          if i == 0 {
            assert rest[j - 1] in tail;
            var m :| 0 <= m < |tail| && tail[m] == rest[j - 1];
            assert s[m + 1] == r[j];
          } else {
            assert r[i] == rest[i - 1];
          }
        }
      } else {
        assert Filter(s, p) == rest;
      }
    }
  }

  datatype ChatLists = ChatLists(groups: seq<Contact>, private: seq<Contact>, hidden: seq<Contact>)

  predicate Named(c: Contact) { !IsUnnamed(c) }
  predicate NamedGroup(c: Contact) { IsGroup(c) && !IsUnnamed(c) }
  predicate NamedPrivate(c: Contact) { !IsGroup(c) && !IsUnnamed(c) }
  predicate HiddenChat(c: Contact) { IsHidden(HiddenLabel(c)) }
  predicate Shown(c: Contact) { !IsHidden(HiddenLabel(c)) }

  /** The split of `cmd_chats`: named group chats and named private chats
      (the latter sorted), each minus the hidden ones, which are listed
      apart, groups first. Nothing named is lost and nothing is listed
      twice. */
  function Partition(contacts: seq<Contact>): (r: ChatLists)
    ensures multiset(r.groups) + multiset(r.private) + multiset(r.hidden)
         == multiset(Filter(contacts, Named))
    ensures StableSort.Sorted(r.private, PrivateKey, KeyLe)
  {
    var allGroups := Filter(contacts, NamedGroup);
    var allPrivate := SortPrivate(Filter(contacts, NamedPrivate));
    PartitionCounts(contacts, allGroups, allPrivate);
    FilterSorted(allPrivate, Shown, PrivateKey, KeyLe);
    ChatLists(Filter(allGroups, Shown), Filter(allPrivate, Shown),
              Filter(allGroups, HiddenChat) + Filter(allPrivate, HiddenChat))
  }

  lemma PartitionCounts(contacts: seq<Contact>, allGroups: seq<Contact>, allPrivate: seq<Contact>)
    requires allGroups == Filter(contacts, NamedGroup)
    requires multiset(allPrivate) == multiset(Filter(contacts, NamedPrivate))
    ensures multiset(Filter(allGroups, Shown)) + multiset(Filter(allPrivate, Shown))
            + multiset(Filter(allGroups, HiddenChat) + Filter(allPrivate, HiddenChat))
         == multiset(Filter(contacts, Named))
  {
    FilterSplit(allGroups, HiddenChat, Shown);
    FilterSplit(allPrivate, HiddenChat, Shown);
    NamedSplit(contacts);
  }

  lemma {:induction false} NamedSplit(contacts: seq<Contact>)
    ensures multiset(Filter(contacts, NamedGroup)) + multiset(Filter(contacts, NamedPrivate))
         == multiset(Filter(contacts, Named))
    decreases |contacts|
  {
    if contacts != [] {
      NamedSplit(contacts[1..]);
    }
  }

  /** Each list holds what its heading says: shown named groups, shown
      named private chats, and hidden named chats. */
  lemma PartitionClassifies(contacts: seq<Contact>, c: Contact)
    ensures var r := Partition(contacts);
      && (c in r.groups <==> c in contacts && IsGroup(c) && !IsUnnamed(c) && !IsHidden(HiddenLabel(c)))
      && (c in r.private <==> c in contacts && !IsGroup(c) && !IsUnnamed(c) && !IsHidden(HiddenLabel(c)))
      && (c in r.hidden <==> c in contacts && !IsUnnamed(c) && IsHidden(HiddenLabel(c)))
  {
    var r := Partition(contacts);
    var allGroups := Filter(contacts, NamedGroup);
    var privateIn := Filter(contacts, NamedPrivate);
    var allPrivate := SortPrivate(privateIn);
    assert r.groups == Filter(allGroups, Shown);
    assert r.private == Filter(allPrivate, Shown);
    assert r.hidden == Filter(allGroups, HiddenChat) + Filter(allPrivate, HiddenChat);
    assert c in allPrivate <==> c in privateIn by {
      assert c in allPrivate <==> c in multiset(allPrivate);
    }
    InFilter(contacts, NamedGroup, c);
    InFilter(contacts, NamedPrivate, c);
    InFilter(allGroups, Shown, c);
    InFilter(allPrivate, Shown, c);
    InFilter(allGroups, HiddenChat, c);
    InFilter(allPrivate, HiddenChat, c);
  }

  /** Among the listed private chats, those with history come first. */
  lemma PrivateWithHistoryFirst(contacts: seq<Contact>, i: nat, j: nat)
    requires var p := Partition(contacts).private; i < j < |p| && p[j].hasMessages
    ensures Partition(contacts).private[i].hasMessages
  {
    var p := Partition(contacts).private;
    assert KeyLe(PrivateKey(p[i]), PrivateKey(p[j]));
  }
}
