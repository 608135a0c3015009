/** The message-rendering helpers of the HTML export: the size label and
    icon of an attachment, the sender and content of one message (with
    every piece of user text escaped), the table of chat members, and the
    date separators between messages.  Markup around the pieces, clock
    formatting and the page template are not modelled: a rendered message
    is the list of its escaped pieces. */
module Formatter {
  import opened Options
  import opened Text
  import HtmlEscape

  // --------------------------------------------------------------- sizes

  /** A file's `size` field: missing (or `None`), an integer, or a string
      that `int()` may or may not accept. */
  datatype SizeField = SizeMissing | SizeInt(n: int) | SizeText(s: string)

  /** Character `i` of `t` is a digit, or an underscore between two
      digits. */
  predicate GroupChar(t: string, i: nat)
    requires i < |t|
  {
    IsDigit(t[i]) || (t[i] == '_' && 0 < i < |t| - 1 && IsDigit(t[i - 1]) && IsDigit(t[i + 1]))
  }

  /** A run of ASCII digits in which single underscores may separate two
      digits, as `int()` reads them (`"1_000"`). */
  predicate Grouped(t: string)
  {
    |t| > 0 && forall i :: 0 <= i < |t| ==> GroupChar(t, i)
  }

  /** The digits of a run, underscores dropped. */
  function Ungrouped(t: string): (r: string)
    ensures (forall i :: 0 <= i < |t| ==> IsDigit(t[i]) || t[i] == '_') ==> forall i :: 0 <= i < |r| ==> IsDigit(r[i])
    ensures (forall i :: 0 <= i < |t| ==> IsDigit(t[i])) ==> r == t
    decreases |t|
  {
    if t == [] then []
    else (if t[0] == '_' then [] else [t[0]]) + Ungrouped(t[1..])
  }

  /** The number a grouped run stands for. */
  function GroupedValue(t: string): nat
    requires Grouped(t)
  {
    assert forall i :: 0 <= i < |t| ==> IsDigit(t[i]) || t[i] == '_' by {
      forall i | 0 <= i < |t| ensures IsDigit(t[i]) || t[i] == '_' {
        assert GroupChar(t, i);
      }
    }
    ParseNat(Ungrouped(t))
  }

  /** The text `int()` accepts once stripped: a grouped run of digits with
      an optional sign. */
  predicate IntLiteral(t: string)
  {
    Grouped(t) || (|t| >= 2 && (t[0] == '-' || t[0] == '+') && Grouped(t[1..]))
  }

  /** `int(t)` for a text without surrounding whitespace. */
  function ParseLiteral(t: string): (r: Option<int>)
    ensures r.Some? <==> IntLiteral(t)
    ensures AllDigits(t) ==> r == Some(ParseNat(t))
    ensures r.Some? && t[0] == '-' ==> r.value <= 0
    ensures r.Some? && t[0] != '-' ==> r.value >= 0
  {
    if Grouped(t) then
      assert t[0] != '-' by { assert GroupChar(t, 0); }
      assert AllDigits(t) ==> Ungrouped(t) == t;
      Some(GroupedValue(t))
    else if |t| >= 2 && t[0] == '-' && Grouped(t[1..]) then Some(0 - GroupedValue(t[1..]))
    else if |t| >= 2 && t[0] == '+' && Grouped(t[1..]) then Some(GroupedValue(t[1..]))
    else
      DigitsGrouped(t);
      None
  }

  /** A plain run of digits is a grouped run. */
  lemma DigitsGrouped(t: string)
    ensures AllDigits(t) ==> Grouped(t)
  {
    if AllDigits(t) {
      forall i | 0 <= i < |t| ensures GroupChar(t, i) { assert IsDigit(t[i]); }
    }
  }

  /** `int(s)` for a string: surrounding whitespace, an optional sign and
      ASCII digits, possibly grouped by underscores. */
  function ParseIntText(s: string): (r: Option<int>)
    ensures r.Some? <==> IntLiteral(Strip(s))
    ensures AllDigits(Strip(s)) ==> r == Some(ParseNat(Strip(s)))
    ensures r.Some? && Strip(s)[0] == '-' ==> r.value <= 0
    ensures r.Some? && Strip(s)[0] != '-' ==> r.value >= 0
  {
    ParseLiteral(Strip(s))
  }

  /** `int(str(n)) == n`: the text Python writes for an integer reads back
      as that integer. */
  lemma ParseIntTextReadsBack(n: int)
    ensures ParseIntText(IntToString(n)) == Some(n)
  {
    var t := IntToString(n);
    if n < 0 {
      NegativeLiteral(-n);
    } else {
      NaturalLiteral(n);
    }
    assert ParseLiteral(t) == Some(n);
    StripNoSpace(t);
  }

  /** `str(m)` parses back to `m` and has no surrounding whitespace. */
  lemma NaturalLiteral(m: nat)
    ensures var d := NatToString(m);
      ParseLiteral(d) == Some(m) && !IsSpace(d[0]) && !IsSpace(d[|d| - 1])
  {
    var d := NatToString(m);
    ParseNatToString(m);
    DigitNotSpace(d[0]);
    DigitNotSpace(d[|d| - 1]);
  }

  /** `"-" + str(m)` parses back to `-m` and has no surrounding whitespace. */
  lemma NegativeLiteral(m: nat)
    requires m > 0
    ensures var t := "-" + NatToString(m);
      ParseLiteral(t) == Some(-(m as int)) && !IsSpace(t[0]) && !IsSpace(t[|t| - 1])
  {
    var d := NatToString(m);
    var t := "-" + d;
    assert Grouped(d) && GroupedValue(d) == m by {
      ParseNatToString(m);
      DigitsGrouped(d);
      assert Ungrouped(d) == d;
    }
    assert t[1..] == d;
    assert !Grouped(t) by {
      assert !GroupChar(t, 0);
    }
    assert !IsSpace(t[|t| - 1]) by {
      DigitNotSpace(d[|d| - 1]);
      assert t[|t| - 1] == d[|d| - 1];
    }
  }

  /** Underscores between digits are read past. */
  lemma GroupedThousands()
    ensures ParseIntText("1_000") == Some(1000)
  {
    var t := "1_000";
    assert Strip(t) == t by {
      DigitNotSpace(t[0]);
      DigitNotSpace(t[4]);
      StripNoSpace(t);
    }
    assert Grouped(t) by {
      forall i | 0 <= i < 5 ensures GroupChar(t, i) {
        if i != 1 { assert IsDigit(t[i]); }
      }
    }
    assert GroupedValue(t) == 1000 by {
      assert Ungrouped(t) == "1000" by {
        assert t[1..] == "_000" && "_000"[1..] == "000";
      }
      assert ParseNat("1000") == 1000 by {
        assert "1000"[..3] == "100" && "100"[..2] == "10" && "10"[..1] == "1";
      }
    }
  }

  /** A doubled underscore is refused. */
  lemma DoubleUnderscoreRefused()
    ensures ParseIntText("1__0") == None
  {
    var t := "1__0";
    assert Strip(t) == t by {
      DigitNotSpace(t[0]);
      DigitNotSpace(t[3]);
      StripNoSpace(t);
    }
    assert !Grouped(t) by {
      assert !GroupChar(t, 1);
    }
    assert t[0] != '-' && t[0] != '+';
  }

  /** The number `format_size` works with: none for a falsy field (missing,
      0 or "") or one `int()` rejects. */
  function SizeValue(f: SizeField): Option<int>
  {
    match f
    case SizeMissing => None
    case SizeInt(n) => if n == 0 then None else Some(n)
    case SizeText(s) => if s == "" then None else ParseIntText(s)
  }

  /** Which unit `format_size` writes; the number it divides for КБ and МБ
      is kept whole (the one-decimal float text is not modelled). */
  datatype SizeLabel = NoSize | Bytes(n: int) | Kilobytes(n: int) | Megabytes(n: int)

  const Kibi: int := 1024
  const Mebi: int := 1024 * 1024

  /** `format_size` */
  function FormatSize(f: SizeField): (r: SizeLabel)
    ensures r.NoSize? <==> SizeValue(f).None?
    ensures SizeValue(f).Some? ==> r.n == SizeValue(f).value
    ensures r.Bytes? <==> SizeValue(f).Some? && SizeValue(f).value < Kibi
    ensures r.Kilobytes? <==> SizeValue(f).Some? && Kibi <= SizeValue(f).value < Mebi
    ensures r.Megabytes? <==> SizeValue(f).Some? && Mebi <= SizeValue(f).value
  {
    match SizeValue(f)
    case None => NoSize
    case Some(n) =>
      if n < Kibi then Bytes(n)
      else if n < Mebi then Kilobytes(n)
      else Megabytes(n)
  }

  function Rank(l: SizeLabel): nat
  {
    match l
    case NoSize => 0
    case Bytes(_) => 1
    case Kilobytes(_) => 2
    case Megabytes(_) => 3
  }

  /** A bigger size never gets a smaller unit. */
  lemma FormatSizeMonotone(a: int, b: int)
    requires a != 0 && b != 0 && a <= b
    ensures Rank(FormatSize(SizeInt(a))) <= Rank(FormatSize(SizeInt(b)))
  {
  }

  /** A size given as a digit string is labelled as the same size given as
      a number. */
  lemma FormatSizeText(n: nat)
    requires n != 0
    ensures FormatSize(SizeText(NatToString(n))) == FormatSize(SizeInt(n))
  {
    var s := NatToString(n);
    StripNoSpace(s);
    ParseNatToString(n);
  }

  /** The text of the byte bucket: `f"{size} Б"`. */
  function ByteText(n: int): (r: string)
    ensures EndsWith(r, " Б")
  {
    IntToString(n) + " Б"
  }

  /** The byte text reads back as its number. */
  lemma ByteTextReadsBack(n: nat)
    ensures var r := ByteText(n);
      ParseNat(r[..|r| - 2]) == n
  {
    var r := ByteText(n);
    assert r[..|r| - 2] == NatToString(n);
    ParseNatToString(n);
  }

  // --------------------------------------------------------------- icons

  const IconClip := "\U{1F4CE}"
  const IconImage := "\U{1F5BC}"
  const IconVideo := "\U{1F3AC}"
  const IconAudio := "\U{1F3B5}"
  const IconPdf := "\U{1F4C4}"
  const IconArchive := "\U{1F4E6}"

  /** `get_file_icon`: the first rule that matches the MIME type wins. */
  function FileIcon(mime: string): (r: string)
    ensures r == IconImage <==> mime != "" && StartsWith(mime, "image/")
    ensures r == IconVideo <==> mime != "" && StartsWith(mime, "video/")
    ensures r == IconAudio <==> mime != "" && StartsWith(mime, "audio/")
    ensures r == IconPdf <==>
      && mime != "" && !StartsWith(mime, "image/") && !StartsWith(mime, "video/")
      && !StartsWith(mime, "audio/") && Contains(mime, "pdf")
    ensures r == IconArchive <==>
      && mime != "" && !StartsWith(mime, "image/") && !StartsWith(mime, "video/")
      && !StartsWith(mime, "audio/") && !Contains(mime, "pdf")
      && (Contains(mime, "zip") || Contains(mime, "rar"))
    ensures r == IconClip <==> r !in {IconImage, IconVideo, IconAudio, IconPdf, IconArchive}
  {
    if mime == "" then IconClip
    else if StartsWith(mime, "image/") then IconImage
    else if StartsWith(mime, "video/") then IconVideo
    else if StartsWith(mime, "audio/") then IconAudio
    else if Contains(mime, "pdf") then IconPdf
    else if Contains(mime, "zip") || Contains(mime, "rar") then IconArchive
    else IconClip
  }

  /** The icons are distinct, so each one names exactly one rule. */
  lemma IconsDistinct()
    ensures |{IconClip, IconImage, IconVideo, IconAudio, IconPdf, IconArchive}| == 6
  {
  }

  // ------------------------------------------------------------ messages

  /** A content part: its `mediaType`, `captionedContent.caption`, `text`
      and `sn`; a missing field is "". */
  datatype Part = Part(mediaType: string, caption: string, text: string, sn: string)

  /** An entry of `filesharing`; `name` and `original_url` may be missing. */
  datatype FileRef = FileRef(name: Option<string>, url: Option<string>, size: SizeField, mime: string)

  /** The fields of a message the renderer reads; a missing string field is
      "", a missing `time` is 0 and missing `parts`/`filesharing` are []. */
  datatype Message = Message(
    outgoing: bool,
    chatSender: string,
    senderSn: string,
    sn: string,
    sender: string,
    senderNick: string,
    friendly: string,
    time: int,
    parts: seq<Part>,
    text: string,
    files: seq<FileRef>)

  /** Who sent a message: `chat.sender`, else `senderSn`, else `sn`, else
      `sender`. */
  function SenderOf(m: Message): string
  {
    FirstNonEmpty([m.chatSender, m.senderSn, m.sn, m.sender])
  }

  /** The nickname a message carries: `senderNick`, else `friendly`. */
  function NickOf(m: Message): string
  {
    FirstNonEmpty([m.senderNick, m.friendly])
  }

  const GroupMarker := "@chat.agent"

  /** A chat is personal unless its id is a group id. */
  predicate IsPersonal(chatSn: string)
  {
    !Contains(chatSn, GroupMarker)
  }

  /** `chat_members`: each sender's nickname as given by that sender's first
      message. */
  function Members(msgs: seq<Message>): (r: map<string, string>)
    ensures "" !in r
    ensures msgs != [] && SenderOf(msgs[0]) != "" ==> SenderOf(msgs[0]) in r && r[SenderOf(msgs[0])] == NickOf(msgs[0])
    decreases |msgs|
  {
    if msgs == [] then map[]
    else
      var prev := Members(msgs[..|msgs| - 1]);
      var last := msgs[|msgs| - 1];
      var s := SenderOf(last);
      if s != "" && s !in prev then prev[s := NickOf(last)] else prev
  }

  /** Every entry of the table belongs to a sender of some message. */
  lemma {:induction false} MemberHasMessage(msgs: seq<Message>, s: string) returns (k: nat)
    requires s in Members(msgs)
    ensures k < |msgs| && SenderOf(msgs[k]) == s && s != ""
    decreases |msgs|
  {
    var init := msgs[..|msgs| - 1];
    if s in Members(init) {
      k := MemberHasMessage(init, s);
      assert init[k] == msgs[k];
    } else {
      k := |msgs| - 1;
    }
  }

  /** Every sender of some message has an entry. */
  lemma {:induction false} MessageHasMember(msgs: seq<Message>, i: nat)
    requires i < |msgs| && SenderOf(msgs[i]) != ""
    ensures SenderOf(msgs[i]) in Members(msgs)
    decreases |msgs|
  {
    var init := msgs[..|msgs| - 1];
    if i < |msgs| - 1 {
      assert init[i] == msgs[i];
      MessageHasMember(init, i);
    }
  }

  /** The table has an entry for exactly the non-empty senders. */
  lemma MembersKeys(msgs: seq<Message>, s: string)
    ensures s in Members(msgs) <==> s != "" && exists i :: 0 <= i < |msgs| && SenderOf(msgs[i]) == s
  {
    if s in Members(msgs) {
      var k := MemberHasMessage(msgs, s);
    }
    if s != "" && exists i :: 0 <= i < |msgs| && SenderOf(msgs[i]) == s {
      var i :| 0 <= i < |msgs| && SenderOf(msgs[i]) == s;
      MessageHasMember(msgs, i);
    }
  }

  /** The entry for a sender is the nickname on that sender's first message. */
  lemma {:induction false} MembersFirst(msgs: seq<Message>, i: nat)
    requires i < |msgs| && SenderOf(msgs[i]) != ""
    requires forall j :: 0 <= j < i ==> SenderOf(msgs[j]) != SenderOf(msgs[i])
    ensures SenderOf(msgs[i]) in Members(msgs)
    ensures Members(msgs)[SenderOf(msgs[i])] == NickOf(msgs[i])
    decreases |msgs|
  {
    var init := msgs[..|msgs| - 1];
    var s := SenderOf(msgs[i]);
    if i < |msgs| - 1 {
      assert init[i] == msgs[i];
      assert forall j :: 0 <= j < i ==> init[j] == msgs[j];
      MembersFirst(init, i);
    } else if s in Members(init) {
      var k := MemberHasMessage(init, s);
    }
  }

  /** The name `render_message` shows for the sender, before escaping. */
  function SenderName(m: Message, members: map<string, string>, chatSn: string, personal: bool): (r: string)
    ensures personal && m.outgoing ==> r == "Вы"
    ensures personal && !m.outgoing ==> r == chatSn
    ensures (!personal && SenderOf(m) != "" && SenderOf(m) in members && members[SenderOf(m)] != "")
              ==> r == members[SenderOf(m)]
    ensures (!personal && (SenderOf(m) !in members || members[SenderOf(m)] == "") && NickOf(m) != "")
              ==> r == NickOf(m)
    ensures !personal ==> (r == "" <==> SenderOf(m) == "" && NickOf(m) == "")
  {
    if personal then (if m.outgoing then "Вы" else chatSn)
    else
      var s := SenderOf(m);
      var nick := NickOf(m);
      assert s in members ==> members != map[] by {
        if s in members {
          assert s in members.Keys;
        }
      }
      var name := if members != map[] && s != "" && s in members && members[s] != "" then members[s] else nick;
      if name == "" && s != "" then s else name
  }

  /** One piece of a rendered message, each field already escaped. */
  datatype Block =
    | TextBlock(text: string)
    | QuoteBlock(sn: string, text: string)
    | ForwardBlock(sn: string, text: string)
    | FileBlock(icon: string, url: string, name: string, size: SizeLabel)

  /** A rendered message: its CSS class, the sender line (absent for own
      messages and in personal chats) and its blocks. */
  datatype Rendered = Rendered(cls: string, sender: Option<string>, blocks: seq<Block>)

  /** Quoted and forwarded text is cut to this many characters. */
  const QuoteLimit: nat := 200

  function Escape(s: string): string
  {
    HtmlEscape.Escape(s)
  }

  function CaptionOrText(p: Part): string
  {
    if p.caption != "" then p.caption else p.text
  }

  /** The blocks one part contributes. */
  function PartBlocks(p: Part): (r: seq<Block>)
    ensures p.mediaType == "text" ==>
      r == (if CaptionOrText(p) == "" then [] else [TextBlock(Escape(CaptionOrText(p)))])
    ensures p.mediaType == "quote" ==> r == [QuoteBlock(Escape(p.sn), Escape(Take(p.text, QuoteLimit)))]
    ensures p.mediaType == "forward" ==> r == [ForwardBlock(Escape(p.sn), Escape(Take(CaptionOrText(p), QuoteLimit)))]
    ensures p.mediaType !in {"text", "quote", "forward"} ==> r == []
  {
    if p.mediaType == "text" then
      var t := CaptionOrText(p);
      if t != "" then [TextBlock(Escape(t))] else []
    else if p.mediaType == "quote" then
      [QuoteBlock(Escape(p.sn), Escape(Take(p.text, QuoteLimit)))]
    else if p.mediaType == "forward" then
      [ForwardBlock(Escape(p.sn), Escape(Take(CaptionOrText(p), QuoteLimit)))]
    else []
  }

  function PartsBlocks(ps: seq<Part>): seq<Block>
  {
    if ps == [] then [] else PartBlocks(ps[0]) + PartsBlocks(ps[1..])
  }

  function FileBlockOf(f: FileRef): Block
  {
    FileBlock(FileIcon(f.mime), Escape(f.url.GetOr("#")), Escape(f.name.GetOr("файл")), FormatSize(f.size))
  }

  function FileBlocks(fs: seq<FileRef>): (r: seq<Block>)
    ensures |r| == |fs|
    ensures forall i :: 0 <= i < |fs| ==> r[i] == FileBlockOf(fs[i])
  {
    if fs == [] then [] else [FileBlockOf(fs[0])] + FileBlocks(fs[1..])
  }

  /** The blocks of a message: its parts, or its own text when it has no
      parts, then one block per attached file. */
  function ContentBlocks(m: Message): seq<Block>
  {
    (if m.parts != [] then PartsBlocks(m.parts)
     else if m.text != "" then [TextBlock(Escape(m.text))]
     else [])
    + FileBlocks(m.files)
  }

  /** `render_message` */
  function RenderMessage(m: Message, members: map<string, string>, chatSn: string, personal: bool): (r: Rendered)
    ensures r.cls == (if m.outgoing then "msg out" else "msg")
    ensures r.sender.None? <==> m.outgoing || personal
    ensures r.sender.Some? ==>
      var name := SenderName(m, members, chatSn, personal);
      r.sender.value == Escape(if name == "" then "?" else name)
    ensures r.blocks == ContentBlocks(m)
  {
    var name := SenderName(m, members, chatSn, personal);
    var sender := Escape(if name == "" then "?" else name);
    Rendered(if m.outgoing then "msg out" else "msg",
             if m.outgoing || personal then None else Some(sender),
             ContentBlocks(m))
  }

  // ----------------------------------------------------- content properties

  /** A message with parts never shows its own `text`: its blocks are those
      of the parts and files alone, whatever the text is. */
  lemma TextIgnoredWithParts(m: Message, text: string)
    requires m.parts != []
    ensures ContentBlocks(m) == ContentBlocks(m.(text := text))
  {
  }

  /** A message without parts shows its text exactly when it is non-empty. */
  lemma TextShownWithoutParts(m: Message)
    requires m.parts == []
    ensures m.text != "" ==> ContentBlocks(m)[0] == TextBlock(Escape(m.text))
    ensures m.text == "" ==> ContentBlocks(m) == FileBlocks(m.files)
  {
  }

  /** No markup character survives in any field of a block. */
  predicate Safe(s: string)
  {
    forall i :: 0 <= i < |s| ==> !HtmlEscape.IsMarkup(s[i])
  }

  predicate BlockSafe(b: Block)
  {
    match b
    case TextBlock(t) => Safe(t)
    case QuoteBlock(s, t) => Safe(s) && Safe(t)
    case ForwardBlock(s, t) => Safe(s) && Safe(t)
    case FileBlock(icon, url, name, _) => Safe(url) && Safe(name)
  }

  lemma {:induction false} PartsBlocksSafe(ps: seq<Part>)
    ensures forall i :: 0 <= i < |PartsBlocks(ps)| ==> BlockSafe(PartsBlocks(ps)[i])
    decreases |ps|
  {
    if ps != [] {
      PartsBlocksSafe(ps[1..]);
      var a := PartBlocks(ps[0]);
      var b := PartsBlocks(ps[1..]);
      assert PartsBlocks(ps) == a + b;
      forall i | 0 <= i < |a + b|
        ensures BlockSafe((a + b)[i])
      {
        if i >= |a| {
          assert (a + b)[i] == b[i - |a|];
        }
      }
    }
  }

  /** Every piece of user text in a rendered message is escaped: the sender
      line and every block field hold no `<`, `>`, `"` or `'`. */
  lemma RenderedSafe(m: Message, members: map<string, string>, chatSn: string, personal: bool)
    ensures var r := RenderMessage(m, members, chatSn, personal);
      && (r.sender.Some? ==> Safe(r.sender.value))
      && forall i :: 0 <= i < |r.blocks| ==> BlockSafe(r.blocks[i])
  {
    var r := RenderMessage(m, members, chatSn, personal);
    var head := if m.parts != [] then PartsBlocks(m.parts)
                else if m.text != "" then [TextBlock(Escape(m.text))] else [];
    var files := FileBlocks(m.files);
    PartsBlocksSafe(m.parts);
    assert r.blocks == head + files;
    forall i | 0 <= i < |r.blocks|
      ensures BlockSafe(r.blocks[i])
    {
      if i >= |head| {
        assert r.blocks[i] == files[i - |head|];
      }
    }
  }

  /** A quote shows the first 200 characters of the quoted text, and they
      can be read back exactly from the escaped block. */
  lemma QuoteReadsBack(p: Part)
    requires p.mediaType == "quote"
    ensures var b := PartBlocks(p)[0];
      && HtmlEscape.Unescape(b.text) == Take(p.text, QuoteLimit)
      && |HtmlEscape.Unescape(b.text)| <= QuoteLimit
      && HtmlEscape.Unescape(b.sn) == p.sn
  {
    HtmlEscape.UnescapeEscape(Take(p.text, QuoteLimit));
    HtmlEscape.UnescapeEscape(p.sn);
  }

  /** A text part shows its caption when it has one, else its text, and the
      escaped block reads back as that. */
  lemma TextPartReadsBack(p: Part)
    requires p.mediaType == "text" && (p.caption != "" || p.text != "")
    ensures var b := PartBlocks(p);
      && |b| == 1
      && HtmlEscape.Unescape(b[0].text) == (if p.caption != "" then p.caption else p.text)
  {
    HtmlEscape.UnescapeEscape(CaptionOrText(p));
  }

  /** The sender line reads back as the chosen sender name, or "?". */
  lemma SenderReadsBack(m: Message, members: map<string, string>, chatSn: string, personal: bool)
    requires !m.outgoing && !personal
    ensures var r := RenderMessage(m, members, chatSn, personal);
      var name := SenderName(m, members, chatSn, personal);
      r.sender.Some? && HtmlEscape.Unescape(r.sender.value) == (if name == "" then "?" else name)
  {
    var name := SenderName(m, members, chatSn, personal);
    HtmlEscape.UnescapeEscape(if name == "" then "?" else name);
  }

  /** In a group chat, the member table's nickname for a sender is what
      every message of that sender shows, once the table is built from the
      chat's messages. */
  lemma GroupSenderFromTable(msgs: seq<Message>, i: nat, k: nat)
    requires i < |msgs| && k <= i
    requires SenderOf(msgs[k]) == SenderOf(msgs[i]) != ""
    requires forall j :: 0 <= j < k ==> SenderOf(msgs[j]) != SenderOf(msgs[i])
    requires NickOf(msgs[k]) != ""
    ensures SenderName(msgs[i], Members(msgs), "", false) == NickOf(msgs[k])
  {
    MembersFirst(msgs, k);
  }

  // ------------------------------------------------------- date separators

  /** The date of the last message before `i` that has a time; "" when none.
      `dateOf` stands for the clock formatting of a timestamp. */
  function LastDate(msgs: seq<Message>, dateOf: int -> string): string
    decreases |msgs|
  {
    if msgs == [] then ""
    else
      var m := msgs[|msgs| - 1];
      if m.time != 0 then dateOf(m.time) else LastDate(msgs[..|msgs| - 1], dateOf)
  }

  /** The loop of `format_as_html` over a chat's messages: before each
      message, the separator it emits, if any; `current` is the date of the
      last separator's message. */
  function SeparatorsFrom(msgs: seq<Message>, dateOf: int -> string, current: string): (r: seq<Option<string>>)
    ensures |r| == |msgs|
    ensures forall i :: 0 <= i < |r| && r[i].Some? ==> msgs[i].time != 0 && r[i].value == dateOf(msgs[i].time)
    ensures msgs != [] && msgs[0].time != 0 ==> (r[0].Some? <==> dateOf(msgs[0].time) != current)
    decreases |msgs|
  {
    if msgs == [] then []
    else
      var m := msgs[0];
      var d := if m.time != 0 then dateOf(m.time) else "";
      if m.time != 0 && d != current
      then [Some(d)] + SeparatorsFrom(msgs[1..], dateOf, d)
      else [None] + SeparatorsFrom(msgs[1..], dateOf, if m.time != 0 then d else current)
  }

  function Separators(msgs: seq<Message>, dateOf: int -> string): (r: seq<Option<string>>)
    ensures |r| == |msgs|
  {
    SeparatorsFrom(msgs, dateOf, "")
  }

  /** `LastDate` of `pre + s` when the loop state after `pre` is `cur`. */
  lemma {:induction false} LastDateAppend(pre: seq<Message>, m: Message, dateOf: int -> string)
    ensures LastDate(pre + [m], dateOf) == if m.time != 0 then dateOf(m.time) else LastDate(pre, dateOf)
  {
    assert (pre + [m])[..|pre|] == pre;
  }

  lemma {:induction false} SeparatorsFromSpec(done: seq<Message>, msgs: seq<Message>, dateOf: int -> string, i: nat)
    requires i < |msgs|
    ensures var all := done + msgs;
      var d := dateOf(msgs[i].time);
      SeparatorsFrom(msgs, dateOf, LastDate(done, dateOf))[i]
        == if msgs[i].time != 0 && d != LastDate(all[..|done| + i], dateOf) then Some(d) else None
    decreases i
  {
    var all := done + msgs;
    var cur := LastDate(done, dateOf);
    var m := msgs[0];
    LastDateAppend(done, m, dateOf);
    var next := LastDate(done + [m], dateOf);
    assert SeparatorsFrom(msgs, dateOf, cur)[1..] == SeparatorsFrom(msgs[1..], dateOf, next);
    if i == 0 {
      assert all[..|done|] == done;
    } else {
      SeparatorsFromSpec(done + [m], msgs[1..], dateOf, i - 1);
      assert (done + [m]) + msgs[1..] == all;
      assert msgs[1..][i - 1] == msgs[i];
    }
  }

  /** A separator comes before a message exactly when it has a time whose
      date differs from the date of the last earlier message with a time. */
  lemma SeparatorAt(msgs: seq<Message>, dateOf: int -> string, i: nat)
    requires i < |msgs|
    ensures Separators(msgs, dateOf)[i]
      == if msgs[i].time != 0 && dateOf(msgs[i].time) != LastDate(msgs[..i], dateOf)
         then Some(dateOf(msgs[i].time)) else None
  {
    SeparatorsFromSpec([], msgs, dateOf, i);
    assert [] + msgs == msgs;
  }
}
