/** The administrator list read from the environment: the `ADMIN_IDS`
    variable is a comma-separated list of Telegram user ids. Reading the
    environment is outside the model; the parser takes the variable's text
    (the empty string when it is unset). */
module Config {
  import opened Text

  /** Page size the history walk compares pages against. */
  const MessagesPerRequest: nat := 900

  /** What one comma-separated token contributes: its id when, stripped, it
      is a non-empty run of ASCII digits; nothing otherwise. */
  function TokenIds(token: string): (r: seq<nat>)
    ensures |r| <= 1
    ensures |r| == 1 <==> AllDigits(Strip(token))
  {
    var t := Strip(token);
    if AllDigits(t) then [ParseNat(t)] else []
  }

  function TokensIds(tokens: seq<string>): (r: seq<nat>)
    ensures |r| <= |tokens|
  {
    if tokens == [] then [] else TokenIds(tokens[0]) + TokensIds(tokens[1..])
  }

  /** `[int(x.strip()) for x in s.split(",") if x.strip().isdigit()]` */
  function ParseAdminIds(s: string): (r: seq<nat>)
    ensures |r| <= |Split(s, ',')|
    ensures (forall i :: 0 <= i < |s| ==> !IsDigit(s[i])) ==> r == []
  {
    var tokens := Split(s, ',');
    NoDigitsNoIds(s, tokens);
    TokensIds(tokens)
  }

  /** Tokens drawn from a digit-free text carry no id. */
  lemma NoDigitsNoIds(s: string, tokens: seq<string>)
    requires tokens == Split(s, ',')
    ensures (forall i :: 0 <= i < |s| ==> !IsDigit(s[i])) ==> TokensIds(tokens) == []
  {
    if forall i :: 0 <= i < |s| ==> !IsDigit(s[i]) {
      SplitPiecesFrom(s, ',');
      forall k, i | 0 <= k < |tokens| && 0 <= i < |tokens[k]|
        ensures !IsDigit(tokens[k][i])
      {
        assert tokens[k][i] in tokens[k];
        var c := tokens[k][i];
        assert c in s;
        var j :| 0 <= j < |s| && s[j] == c;
      }
      NoDigitTokens(tokens);
    }
  }

  lemma {:induction false} NoDigitTokens(tokens: seq<string>)
    requires forall k, i :: 0 <= k < |tokens| && 0 <= i < |tokens[k]| ==> !IsDigit(tokens[k][i])
    ensures TokensIds(tokens) == []
    decreases |tokens|
  {
    if tokens != [] {
      var t := Strip(tokens[0]);
      if t != [] {
        assert t[0] in tokens[0];
      }
      NoDigitTokens(tokens[1..]);
    }
  }

  /** Every character of every piece of a split comes from the text. */
  lemma {:induction false} SplitPiecesFrom(s: string, sep: char)
    ensures forall k, c :: 0 <= k < |Split(s, sep)| && c in Split(s, sep)[k] ==> c in s
    decreases |s|
  {
    if sep in s {
      var k := IndexOf(s, sep);
      SplitPiecesFrom(s[k + 1..], sep);
      forall j, c | 0 <= j < |Split(s, sep)| && c in Split(s, sep)[j]
        ensures c in s
      {
        if j > 0 {
          assert Split(s, sep)[j] == Split(s[k + 1..], sep)[j - 1];
          assert c in s[k + 1..];
        } else {
          assert c in s[..k];
        }
      }
    }
  }

  lemma {:induction false} TokensIdsAppend(a: seq<string>, b: seq<string>)
    ensures TokensIds(a + b) == TokensIds(a) + TokensIds(b)
    decreases |a|
  {
    if a != [] {
      assert (a + b)[1..] == a[1..] + b;
      TokensIdsAppend(a[1..], b);
    } else {
      assert a + b == b;
    }
  }

  /** The parse of a joined list is the tokens' contributions in order: a
      bad token is dropped without disturbing its neighbours. */
  lemma ParseJoin(tokens: seq<string>)
    requires |tokens| >= 1
    requires forall i :: 0 <= i < |tokens| ==> ',' !in tokens[i]
    ensures ParseAdminIds(Join(tokens, ',')) == TokensIds(tokens)
  {
    SplitJoin(tokens, ',');
  }

  /** How ids are written into the variable: decimal, comma-separated. */
  function FormatAdminIds(ids: seq<nat>): string
  {
    Join(Digits(ids), ',')
  }

  function Digits(ids: seq<nat>): (r: seq<string>)
    ensures |r| == |ids|
    ensures forall i :: 0 <= i < |r| ==> r[i] == NatToString(ids[i])
  {
    if ids == [] then [] else [NatToString(ids[0])] + Digits(ids[1..])
  }

  /** Round trip: order is kept and repeated ids are all kept. */
  lemma {:induction false} ParseFormat(ids: seq<nat>)
    ensures ParseAdminIds(FormatAdminIds(ids)) == ids
  {
    if ids == [] {
      assert FormatAdminIds(ids) == "";
      assert Split("", ',') == [""];
    } else {
      var tokens := Digits(ids);
      forall i | 0 <= i < |tokens|
        ensures ',' !in tokens[i]
      {
        assert forall j :: 0 <= j < |tokens[i]| ==> tokens[i][j] != ',' by {
          assert AllDigits(tokens[i]);
        }
      }
      ParseJoin(tokens);
      DigitsIds(ids);
    }
  }

  lemma {:induction false} DigitsIds(ids: seq<nat>)
    ensures TokensIds(Digits(ids)) == ids
    decreases |ids|
  {
    if ids != [] {
      var t := NatToString(ids[0]);
      StripNoSpace(t);
      ParseNatToString(ids[0]);
      assert TokenIds(t) == [ids[0]];
      assert Digits(ids)[1..] == Digits(ids[1..]);
      DigitsIds(ids[1..]);
    }
  }

  /** Whitespace around ids is ignored: `"1, 2"` lists 1 and 2. */
  lemma SpacedExample()
    ensures ParseAdminIds(Join(["1", " 2"], ',')) == [1, 2]
  {
    SpacedTokens();
    assert ',' !in "1" && ',' !in " 2";
    ParseJoin(["1", " 2"]);
  }

  lemma SpacedTokens()
    ensures TokensIds(["1", " 2"]) == [1, 2]
  {
    OneToken();
    SpacedTwoToken();
    assert ["1", " 2"][1..] == [" 2"];
    assert TokensIds([" 2"]) == TokenIds(" 2") + TokensIds([]);
  }

  lemma OneToken() ensures TokenIds("1") == [1] { DigitToken("1", "", "", 1); }
  lemma SpacedTwoToken() ensures TokenIds(" 2") == [2] { DigitToken("2", " ", "", 2); }
  /** Leading zeros are read; empty, signed and mixed tokens are dropped. */
  lemma ZeroPaddedToken() ensures TokenIds("007") == [7]
  {
    ParseZeroPadded();
    DigitToken("007", "", "", 7);
    assert "" + "007" + "" == "007";
  }

  lemma ParseZeroPadded() ensures AllDigits("007") && ParseNat("007") == 7
  {
    assert ParseNat("0") == 0 by {
      assert "0"[..0] == "";
    }
    assert ParseNat("00") == 0 by {
      assert "00"[..1] == "0";
    }
    assert "007"[..2] == "00";
  }

  lemma EmptyToken() ensures TokenIds("") == [] { }

  lemma SignedToken() ensures TokenIds("-5") == []
  {
    var t := "-5";
    assert Strip(t) == t by {
      assert !IsSpace(t[0]) && !IsSpace(t[1]);
      StripNoSpace(t);
    }
    assert !IsDigit(t[0]);
  }

  lemma MixedToken() ensures TokenIds("12a") == []
  {
    var t := "12a";
    assert Strip(t) == t by {
      assert !IsSpace(t[0]) && !IsSpace(t[2]);
      StripNoSpace(t);
    }
    assert !IsDigit(t[2]);
  }

  /** A padded run of digits contributes exactly its value. */
  lemma DigitToken(digits: string, pre: string, post: string, n: nat)
    requires AllDigits(digits) && ParseNat(digits) == n
    requires forall i :: 0 <= i < |pre| ==> IsSpace(pre[i])
    requires forall i :: 0 <= i < |post| ==> IsSpace(post[i])
    ensures TokenIds(pre + digits + post) == [n]
  {
    StripPadding(pre, digits, post);
  }
}
