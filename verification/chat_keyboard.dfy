/** The chat-selection keyboard of the export dialogue: the search filter,
    the page of chats shown, the page navigation, the buttons' labels and
    callbacks, and the selection edits its buttons trigger (toggle one chat,
    select every chat of the current list). A keyboard is a list of rows of
    (label, callback) buttons. */
module ChatKeyboard {
  import opened Text
  import opened Collections
  import ChatList
  import VKTeams

  type Contact = VKTeams.Contact

  datatype Button = Button(text: string, callback: string)

  /** The three lists the dialogue switches between. */
  datatype Mode = Groups | Private | Hidden

  function ModeName(m: Mode): string
  {
    match m
    case Groups => "groups"
    case Private => "private"
    case Hidden => "hidden"
  }

  function Min(a: int, b: int): int
  {
    if a <= b then a else b
  }

  // ------------------------------------------------------------------ search

  /** What the search looks at: the name, or the id when the name is empty. */
  function SearchLabel(c: Contact): string
  {
    FirstNonEmpty([c.name, c.sn])
  }

  /** Case-insensitive substring match of the query in the label. */
  predicate Matches(query: string, c: Contact)
  {
    Contains(Lower(SearchLabel(c)), Lower(query))
  }

  /** The search filter of `build_chats_keyboard` and `select_all_current`:
      with an empty query every chat is kept; otherwise exactly the chats
      that match, in their order. */
  function Search(chats: seq<Contact>, query: string): (r: seq<Contact>)
    ensures query == "" ==> r == chats
    ensures forall i :: 0 <= i < |r| ==> r[i] in chats && Matches(query, r[i])
    ensures forall i :: 0 <= i < |chats| && Matches(query, chats[i]) ==> chats[i] in r
  {
    if query == "" then chats else Filter(chats, c => Matches(query, c))
  }

  /** Every label contains the empty string, so skipping the filter for an
      empty query keeps what filtering would keep. */
  lemma EmptyQueryMatchesAll(c: Contact)
    ensures Matches("", c)
  {
    assert StartsWith(Lower(SearchLabel(c)), "");
  }

  /** The search keeps exactly the matching chats, one by one... */
  lemma SearchSingle(c: Contact, query: string)
    ensures Search([c], query) == if Matches(query, c) then [c] else []
  {
    EmptyQueryMatchesAll(c);
    if query != "" {
      assert [c][1..] == [];
    }
  }

  /** ...and in their order: searching a list searches its parts in turn.
      With `SearchSingle` this makes the result the matching chats in list
      order, repeats kept. */
  lemma SearchKeepsOrder(a: seq<Contact>, b: seq<Contact>, query: string)
    ensures Search(a + b, query) == Search(a, query) + Search(b, query)
  {
    if query != "" {
      FilterAppend(a, b, c => Matches(query, c));
    }
  }

  /** The query's case does not matter. */
  lemma SearchIgnoresCase(query: string, c: Contact)
    ensures Matches(Lower(query), c) <==> Matches(query, c)
  {
    LowerIdempotent(query);
  }

  // ------------------------------------------------------------------ paging

  /** `chats[page*page_size : min(page*page_size + page_size, total)]` */
  function PageItems(chats: seq<Contact>, page: nat, pageSize: nat): (r: seq<Contact>)
    ensures |r| == if page * pageSize >= |chats| then 0 else Min(pageSize, |chats| - page * pageSize)
    ensures forall i :: 0 <= i < |r| ==> r[i] == chats[page * pageSize + i]
  {
    var start := page * pageSize;
    var end := Min(start + pageSize, |chats|);
    if start >= end then [] else chats[start..end]
  }

  /** `max(1, (total + page_size - 1) // page_size)` */
  function TotalPages(total: nat, pageSize: nat): (n: nat)
    requires pageSize > 0
    ensures n >= 1
  {
    var q := (total + pageSize - 1) / pageSize;
    if q < 1 then 1 else q
  }

  /** Every chat of the list is shown on exactly one page: chat `k` is item
      `k % pageSize` of page `k / pageSize`. */
  lemma EveryChatOnItsPage(chats: seq<Contact>, pageSize: nat, k: nat)
    requires pageSize > 0 && k < |chats|
    ensures k / pageSize < TotalPages(|chats|, pageSize)
    ensures var items := PageItems(chats, k / pageSize, pageSize);
      k % pageSize < |items| && items[k % pageSize] == chats[k]
  {
    var p := k / pageSize;
    assert p * pageSize + k % pageSize == k;
    PageHasChatsIff(|chats|, pageSize, p);
  }

  /** A page has chats exactly when it is one of the counted pages and the
      list is not empty. */
  lemma PageHasChatsIff(total: nat, pageSize: nat, page: nat)
    requires pageSize > 0
    ensures page * pageSize < total <==> total > 0 && page < TotalPages(total, pageSize)
  {
    var x := total + pageSize - 1;
    var q := x / pageSize;
    var rem := x % pageSize;
    assert x == q * pageSize + rem && 0 <= rem < pageSize;
    if total > 0 {
      assert q >= 1;
      if page < q {
        ChatList.MulMono(page, q - 1, pageSize);
        assert (q - 1) * pageSize == q * pageSize - pageSize;
      } else {
        ChatList.MulMono(q, page, pageSize);
      }
    }
  }

  // ----------------------------------------------------------------- labels

  const Ellipsis: char := '\U{2026}'
  const Checked: string := "\U{2611}\U{FE0F}"
  const Unchecked: string := "\U{2B1C}"
  const DeletedMark: string := "\U{1F464}\U{274C} "
  const PrevArrow: string := "\U{25C0}\U{FE0F}"
  const NextArrow: string := "\U{25B6}\U{FE0F}"

  /** `s[:n] + "…" if len(s) > n else s` */
  function Shorten(s: string, n: nat): (r: string)
    ensures |s| <= n ==> r == s
    ensures |s| > n ==> |r| == n + 1 && r[n] == Ellipsis
    ensures |r| <= n + 1 && StartsWith(r, Take(s, n))
  {
    if |s| > n then s[..n] + [Ellipsis] else s
  }

  /** The name a button shows: name, else friendly name, else id. */
  function ShownName(c: Contact): string
  {
    FirstNonEmpty([c.name, c.friendly, c.sn])
  }

  /** A deleted account: blocked, or known only by a personal e-mail id. */
  predicate IsDeleted(c: Contact)
  {
    c.isBlocked || (ShownName(c) == c.sn && '@' in c.sn && !Contains(c.sn, ChatList.GroupMarker))
  }

  /** The label after the checkbox: deleted accounts show their id, cut to
      23 characters, behind a marker; others their name cut to 28. */
  function ChatLabel(c: Contact): (r: string)
    ensures IsDeleted(c) ==> StartsWith(r, DeletedMark) && |r| <= |DeletedMark| + 24
    ensures IsDeleted(c) && c.sn != "" ==> StartsWith(r[|DeletedMark|..], Take(c.sn, 23))
    ensures IsDeleted(c) && c.sn != "" && |c.sn| <= 23 ==> r == DeletedMark + c.sn
    ensures IsDeleted(c) && c.sn == "" ==> StartsWith(r[|DeletedMark|..], Take(ShownName(c), 23))
    ensures !IsDeleted(c) ==> |r| <= 29 && StartsWith(r, Take(ShownName(c), 28))
    ensures !IsDeleted(c) && |ShownName(c)| <= 28 ==> r == ShownName(c)
  {
    if IsDeleted(c) then
      var shown := Shorten(if c.sn != "" then c.sn else ShownName(c), 23);
      assert (DeletedMark + shown)[..|DeletedMark|] == DeletedMark;
      DeletedMark + shown
    else Shorten(ShownName(c), 28)
  }

  function Checkbox(on: bool): string
  {
    if on then Checked else Unchecked
  }

  /** One chat's button: its checkbox shows whether it is selected, and
      pressing it sends `select:` and the chat id. */
  function ChatButton(c: Contact, selected: seq<string>): (b: Button)
    ensures StartsWith(b.text, Checked) <==> c.sn in selected
    ensures StartsWith(b.callback, "select:")
  {
    var text := Checkbox(c.sn in selected) + " " + ChatLabel(c);
    assert text[0] == Checkbox(c.sn in selected)[0];
    var cb := "select:" + c.sn;
    assert cb[..7] == "select:";
    Button(text, cb)
  }

  /** `data.split(":", 1)[1]`: the text after the first colon. */
  function AfterFirstColon(s: string): string
    requires ':' in s
  {
    s[IndexOf(s, ':') + 1..]
  }

  /** The toggle handler reads back the id the button was built with, even
      an id holding colons. */
  lemma SelectCallbackReadsBack(c: Contact, selected: seq<string>)
    ensures var cb := ChatButton(c, selected).callback;
      ':' in cb && AfterFirstColon(cb) == c.sn
  {
    var cb := "select:" + c.sn;
    assert cb[6] == ':' && ':' !in cb[..6];
    IndexOfAt(cb, ':', 6);
    assert cb[7..] == c.sn;
  }

  // -------------------------------------------------------------- navigation

  /** `page:{mode}:{page}` */
  function PageCallback(m: Mode, page: int): string
  {
    "page:" + ModeName(m) + ":" + IntToString(page)
  }

  /** The pagination handler splits the callback at colons and reads the
      mode and the page number back. */
  lemma PageCallbackReadsBack(m: Mode, page: nat)
    ensures var parts := Split(PageCallback(m, page), ':');
      && |parts| == 3 && parts[1] == ModeName(m)
      && AllDigits(parts[2]) && ParseNat(parts[2]) == page
  {
    var parts := ["page", ModeName(m), NatToString(page)];
    assert ':' !in NatToString(page) by {
      var s := NatToString(page);
      assert forall i :: 0 <= i < |s| ==> IsDigit(s[i]);
    }
    assert IntToString(page) == NatToString(page);
    assert Join(parts, ':') == PageCallback(m, page) by {
      assert Join(parts[1..], ':') == ModeName(m) + ":" + NatToString(page) by {
        assert Join(parts[2..], ':') == NatToString(page);
      }
    }
    SplitJoin(parts, ':');
    ParseNatToString(page);
  }

  /** The navigation row for a list of more than one page: a back arrow
      unless on the first page, the page counter, a forward arrow unless on
      the last page. */
  function NavRow(m: Mode, page: nat, totalPages: nat): (r: seq<Button>)
    ensures (exists j :: 0 <= j < |r| && r[j] == Button(PrevArrow, PageCallback(m, page - 1))) <==> page > 0
    ensures (exists j :: 0 <= j < |r| && r[j] == Button(NextArrow, PageCallback(m, page + 1))) <==> page + 1 < totalPages
  {
    var prev := if page > 0 then [Button(PrevArrow, PageCallback(m, page - 1))] else [];
    var counter := [Button(NatToString(page + 1) + "/" + NatToString(totalPages), "noop")];
    var next := if page + 1 < totalPages then [Button(NextArrow, PageCallback(m, page + 1))] else [];
    var r := prev + counter + next;
    assert counter[0].callback == "noop";
    assert PrevArrow != NextArrow by {
      assert PrevArrow[0] != NextArrow[0];
    }
    assert page + 1 < totalPages ==> r[|r| - 1] == next[0];
    assert page > 0 ==> r[0] == prev[0];
    r
  }

  // ------------------------------------------------------------ fixed rows

  /** The button that switches to a list. */
  function ShowButton(m: Mode): Button
  {
    match m
    case Groups => Button("\U{1F465} Группы", "show_groups")
    case Private => Button("\U{1F464} Личные", "show_private")
    case Hidden => Button("\U{1F382} Скрытые", "show_hidden")
  }

  function Callbacks(row: seq<Button>): (r: seq<string>)
    ensures |r| == |row| && forall i :: 0 <= i < |row| ==> r[i] == row[i].callback
  {
    seq(|row|, i requires 0 <= i < |row| => row[i].callback)
  }

  /** The row that switches lists. */
  function ModeRow(m: Mode, hasHidden: bool): seq<Button>
  {
    var hidden := if hasHidden then [ShowButton(Hidden)] else [];
    match m
    case Groups => [Button("\U{1F464} Личные чаты", "show_private")] + hidden
    case Private => [ShowButton(Groups)] + hidden
    case Hidden => [ShowButton(Groups), ShowButton(Private)]
  }

  /** The list row offers every other list, the hidden one only when there
      are hidden chats, and never the current one. */
  lemma ModeRowOffersOthers(m: Mode, hasHidden: bool, other: Mode)
    ensures ShowButton(other).callback in Callbacks(ModeRow(m, hasHidden))
      <==> other != m && (other == Hidden ==> hasHidden)
  {
    var cbs := Callbacks(ModeRow(m, hasHidden));
    var h := if hasHidden then ["show_hidden"] else [];
    match m
    case Groups => assert cbs == ["show_private"] + h;
    case Private => assert cbs == ["show_groups"] + h;
    case Hidden => assert cbs == ["show_groups", "show_private"];
  }

  function SelectRow(m: Mode): seq<Button>
  {
    [Button("\U{2705} Выбрать все", "select_all:" + ModeName(m)),
     Button("\U{274C} Сбросить", "clear_selection")]
  }

  /** The search row: the query's first 15 characters and a reset button
      while a query is set. */
  function SearchRow(query: string): (r: seq<Button>)
    ensures |r| == 2
    ensures r[1].callback == "clear_search" <==> query != ""
  {
    if query != "" then
      [Button("\U{1F50D} Поиск: " + Take(query, 15) + "...", "start_search"),
       Button("\U{1F6AB} Сброс поиска", "clear_search")]
    else
      [Button("\U{1F50D} Поиск", "start_search"), Button(" ", "noop")]
  }

  function ExportRow(selectedCount: nat): seq<Button>
  {
    [Button("\U{1F4E5} Экспорт (" + NatToString(selectedCount) + " шт.)", "do_export")]
  }

  // ---------------------------------------------------------------- keyboard

  /** `build_chats_keyboard`: one row per chat of the requested page of the
      filtered list, the navigation row when there is more than one page,
      then the selection, search, list and export rows. */
  function BuildKeyboard(chats: seq<Contact>, selected: seq<string>, page: nat, pageSize: nat,
                         m: Mode, hasHidden: bool, query: string): (r: seq<seq<Button>>)
    requires pageSize > 0
    ensures var f := Search(chats, query);
      |r| == |PageItems(f, page, pageSize)| + (if TotalPages(|f|, pageSize) > 1 then 1 else 0) + 4
    ensures r[|r| - 4..] == [SelectRow(m), SearchRow(query), ModeRow(m, hasHidden), ExportRow(|selected|)]
    ensures forall i :: 0 <= i < |r| - 4 ==> |r[i]| >= 1
  {
    var f := Search(chats, query);
    var items := PageItems(f, page, pageSize);
    var n := TotalPages(|f|, pageSize);
    var chatRows := seq(|items|, i requires 0 <= i < |items| => [ChatButton(items[i], selected)]);
    var nav := if n > 1 then [NavRow(m, page, n)] else [];
    chatRows + nav + [SelectRow(m), SearchRow(query), ModeRow(m, hasHidden), ExportRow(|selected|)]
  }

  /** The keyboard shows at most a page of chats, namely the page's items
      (the filtered chats from `page * pageSize` on), each with its own row; a navigation row
      exactly when the filtered list spans several pages; and the export
      button, counting the selection, last. */
  lemma KeyboardLayout(chats: seq<Contact>, selected: seq<string>, page: nat, pageSize: nat,
                       m: Mode, hasHidden: bool, query: string)
    requires pageSize > 0
    ensures var k := BuildKeyboard(chats, selected, page, pageSize, m, hasHidden, query);
      var f := Search(chats, query);
      var items := PageItems(f, page, pageSize);
      var shown := |items|;
      var n := TotalPages(|f|, pageSize);
      && shown <= pageSize
      && |k| == shown + (if n > 1 then 1 else 0) + 4
      && (forall i :: 0 <= i < shown ==> k[i] == [ChatButton(items[i], selected)])
      && (n > 1 ==> k[shown] == NavRow(m, page, n))
      && k[|k| - 1] == ExportRow(|selected|)
  {
    var f := Search(chats, query);
    var items := PageItems(f, page, pageSize);
    var n := TotalPages(|f|, pageSize);
    var chatRows := seq(|items|, i requires 0 <= i < |items| => [ChatButton(items[i], selected)]);
    var nav := if n > 1 then [NavRow(m, page, n)] else [];
    var k := chatRows + nav + [SelectRow(m), SearchRow(query), ModeRow(m, hasHidden), ExportRow(|selected|)];
    assert BuildKeyboard(chats, selected, page, pageSize, m, hasHidden, query) == k;
    assert forall i :: 0 <= i < |items| ==> k[i] == chatRows[i];
    assert n > 1 ==> k[|items|] == nav[0];
  }

  // --------------------------------------------------------------- selection

  /** `r` is `s` without its element `k`, the first occurrence of `x`. */
  predicate DropsFirstAt(s: seq<string>, x: string, k: int, r: seq<string>)
  {
    0 <= k < |s| && s[k] == x && x !in s[..k] && r == s[..k] + s[k + 1..]
  }

  /** `list.remove(x)`: drops the first occurrence, if any, and keeps the
      order of the rest. */
  function RemoveFirst(s: seq<string>, x: string): (r: seq<string>)
    ensures x !in s ==> r == s
    ensures x in s ==> exists k :: DropsFirstAt(s, x, k, r)
    ensures x in s ==> |r| == |s| - 1 && multiset(r) == multiset(s) - multiset{x}
  {
    if s == [] then []
    else
      assert s == [s[0]] + s[1..];
      if s[0] == x then
        assert DropsFirstAt(s, x, 0, s[1..]);
        s[1..]
      else
        var r := RemoveFirst(s[1..], x);
        RemoveFirstShift(s, x, r);
        [s[0]] + r
  }

  /** The first occurrence in the tail, shifted by one, is the first
      occurrence in a list whose head differs. */
  lemma RemoveFirstShift(s: seq<string>, x: string, r: seq<string>)
    requires s != [] && s[0] != x
    requires x in s[1..] ==> exists k :: DropsFirstAt(s[1..], x, k, r)
    ensures x in s ==> exists k :: DropsFirstAt(s, x, k, [s[0]] + r)
  {
    if x in s {
      assert x in s[1..] by {
        var i :| 0 <= i < |s| && s[i] == x;
        assert s[1..][i - 1] == x;
      }
      var k :| DropsFirstAt(s[1..], x, k, r);
      ShiftDrop(s, x, r, k);
    }
  }

  lemma ShiftDrop(s: seq<string>, x: string, r: seq<string>, k: int)
    requires s != [] && s[0] != x && DropsFirstAt(s[1..], x, k, r)
    ensures DropsFirstAt(s, x, k + 1, [s[0]] + r)
  {
    assert s[..k + 1] == [s[0]] + s[1..][..k];
    assert s[k + 2..] == s[1..][k + 1..];
  }

  /** `toggle_chat_selection`: a selected id is removed at its first
      occurrence, the others keeping their order; another is appended. */
  function Toggle(selected: seq<string>, sn: string): (r: seq<string>)
    ensures sn in selected ==> exists k :: DropsFirstAt(selected, sn, k, r)
    ensures sn in selected ==> multiset(r) == multiset(selected) - multiset{sn}
    ensures sn !in selected ==> r == selected + [sn]
  {
    if sn in selected then RemoveFirst(selected, sn) else selected + [sn]
  }

  /** On a list without repeats, a toggle flips the id's membership, leaves
      every other id alone and adds no repeat. */
  lemma ToggleFlips(selected: seq<string>, sn: string, other: string)
    requires NoDup(selected)
    ensures NoDup(Toggle(selected, sn))
    ensures sn in Toggle(selected, sn) <==> sn !in selected
    ensures other != sn ==> (other in Toggle(selected, sn) <==> other in selected)
  {
    var r := Toggle(selected, sn);
    MultisetNoDup(selected);
    assert other in r <==> other in multiset(r);
    assert other in selected <==> other in multiset(selected);
    assert sn in r <==> sn in multiset(r);
    if sn in selected {
      assert multiset(selected)[sn] == 1;
    }
    NoDupOfMultiset(r);
  }

  /** Toggling an unselected id twice restores the selection exactly. */
  lemma ToggleTwiceRestores(selected: seq<string>, sn: string)
    requires sn !in selected
    ensures Toggle(Toggle(selected, sn), sn) == selected
  {
    var r := selected + [sn];
    assert sn in r && r[|selected|] == sn;
    RemoveLast(selected, sn);
  }

  /** Toggling a selected id twice restores the same set of ids (the id moves
      to the end). */
  lemma ToggleTwiceSameIds(selected: seq<string>, sn: string)
    requires NoDup(selected) && sn in selected
    ensures multiset(Toggle(Toggle(selected, sn), sn)) == multiset(selected)
  {
    ToggleFlips(selected, sn, sn);
  }

  lemma {:induction false} RemoveLast(s: seq<string>, x: string)
    requires x !in s
    ensures RemoveFirst(s + [x], x) == s
    decreases |s|
  {
    if s != [] {
      assert (s + [x])[1..] == s[1..] + [x];
      RemoveLast(s[1..], x);
    }
  }

  /** Without repeats every id occurs once. */
  lemma {:induction false} MultisetNoDup(s: seq<string>)
    requires NoDup(s)
    ensures forall x :: x in s ==> multiset(s)[x] == 1
    decreases |s|
  {
    if s != [] {
      var t := s[1..];
      assert NoDup(t) by {
        forall i, j | 0 <= i < j < |t| ensures t[i] != t[j] {
          assert t[i] == s[i + 1] && t[j] == s[j + 1];
        }
      }
      MultisetNoDup(t);
      assert s == [s[0]] + t;
      assert s[0] !in t by {
        forall j | 0 <= j < |t| ensures t[j] != s[0] {
          assert t[j] == s[j + 1];
        }
      }
    }
  }

  /** An id occurring at most once in the multiset has no repeat. */
  lemma NoDupOfMultiset(s: seq<string>)
    requires forall x :: multiset(s)[x] <= 1
    ensures NoDup(s)
  {
    forall i, j | 0 <= i < j < |s|
      ensures s[i] != s[j]
    {
      RepeatCounted(s, i, j);
    }
  }

  /** Two equal entries count twice. */
  lemma RepeatCounted(s: seq<string>, i: nat, j: nat)
    requires i < j < |s|
    ensures s[i] == s[j] ==> multiset(s)[s[i]] >= 2
  {
    assert s == s[..i] + [s[i]] + s[i + 1..j] + [s[j]] + s[j + 1..];
  }

  /** `select_all_current`'s loop: every chat's non-empty id not yet
      selected is appended, in list order. The old selection stays a
      prefix, every non-empty id ends up selected, and what is appended is
      new, non-empty, without repeats and taken from the chats. */
  function SelectAll(selected: seq<string>, chats: seq<Contact>): (r: seq<string>)
    ensures Extends(selected, chats, r)
    decreases |chats|
  {
    if chats == [] then selected
    else
      var r := SelectAll(Picked(selected, chats[0].sn), chats[1..]);
      ExtendsStep(selected, chats, r);
      r
  }

  /** The selection after looking at one id. */
  function Picked(selected: seq<string>, sn: string): seq<string>
  {
    if sn != "" && sn !in selected then selected + [sn] else selected
  }

  /** `r` keeps `selected` as a prefix, holds every chat's non-empty id, and
      adds only new, non-empty, distinct ids of the chats. */
  ghost predicate Extends(selected: seq<string>, chats: seq<Contact>, r: seq<string>)
  {
    && |selected| <= |r| && r[..|selected|] == selected
    && (forall i :: 0 <= i < |chats| && chats[i].sn != "" ==> chats[i].sn in r)
    && (forall j :: |selected| <= j < |r| ==>
          r[j] != "" && r[j] !in selected && exists i :: 0 <= i < |chats| && chats[i].sn == r[j])
    && (forall j, l :: |selected| <= j < l < |r| ==> r[j] != r[l])
  }

  lemma ExtendsStep(selected: seq<string>, chats: seq<Contact>, r: seq<string>)
    requires chats != [] && Extends(Picked(selected, chats[0].sn), chats[1..], r)
    ensures Extends(selected, chats, r)
  {
    var sn := chats[0].sn;
    var next := Picked(selected, sn);
    assert r[..|next|][..|selected|] == r[..|selected|];
    assert forall i :: 1 <= i < |chats| ==> chats[i] == chats[1..][i - 1];
    forall j | |next| <= j < |r|
      ensures r[j] !in selected
    {
      assert r[j] !in next;
      assert selected <= next;
    }
    assert next != selected ==> r[|selected|] == sn;
  }

  /** With no repeats before, none after. */
  lemma SelectAllNoDup(selected: seq<string>, chats: seq<Contact>)
    requires NoDup(selected)
    ensures NoDup(SelectAll(selected, chats))
  {
    var r := SelectAll(selected, chats);
    forall i, j | 0 <= i < j < |r|
      ensures r[i] != r[j]
    {
      if j < |selected| {
        assert r[i] == selected[i] && r[j] == selected[j];
      } else if i < |selected| {
        assert r[i] == selected[i] && r[i] in selected;
      }
    }
  }

  /** Selecting all a second time adds nothing. */
  lemma SelectAllIdempotent(selected: seq<string>, chats: seq<Contact>)
    ensures SelectAll(SelectAll(selected, chats), chats) == SelectAll(selected, chats)
  {
    var r := SelectAll(selected, chats);
    var r2 := SelectAll(r, chats);
    if |r2| > |r| {
      var i :| 0 <= i < |chats| && chats[i].sn == r2[|r|];
    }
  }

  /** The button's handler adds the chats the current search shows: every
      matching chat with an id is selected afterwards. */
  lemma SelectAllMatching(selected: seq<string>, chats: seq<Contact>, query: string, i: nat)
    requires i < |chats| && chats[i].sn != "" && Matches(query, chats[i])
    ensures chats[i].sn in SelectAll(selected, Search(chats, query))
  {
    var f := Search(chats, query);
    var j :| 0 <= j < |f| && f[j] == chats[i];
  }
}
