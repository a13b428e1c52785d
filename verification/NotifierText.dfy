/**
 Budgeted text for notification channels. A string is a list of decoded units: scalar
 values, and bytes that are not valid UTF-8, which decoding turns into U+FFFD.
 */
module NotifierText {
  import opened Prelude

  newtype Scalar = x: int | 0 <= x < 0xD800 || 0xE000 <= x <= 0x10FFFF

  datatype Unit = Rune(r: Scalar) | BadByte(b: byte)

  type Text = seq<Unit>

  const ELLIPSIS: Unit := Rune(0x2026)
  const AT_SIGN: Unit := Rune(0x40)
  const ZERO_WIDTH: Unit := Rune(0x200B)
  const NEWLINE: Unit := Rune(0x0A)
  const BACKSLASH: Unit := Rune(0x5C)
  const SPECIAL: set<Unit> := {BACKSLASH, Rune(0x60), Rune(0x2A), Rune(0x5F), Rune(0x7E), Rune(0x7C), Rune(0x3C), Rune(0x3E), AT_SIGN, Rune(0x23)}

  function Decoded(u: Unit): Scalar {
    if u.Rune? then u.r else 0xFFFD
  }

  /** Writing a unit out again after decoding it. */
  function Written(u: Unit): Unit {
    Rune(Decoded(u))
  }

  /** UTF-8 length of a scalar value, section 3 of RFC 3629. */
  function RuneLen(r: Scalar): nat {
    if r < 0x80 then 1 else if r < 0x800 then 2 else if r < 0x10000 then 3 else 4
  }

  /** UTF-16 code units of a scalar value, section 2.1 of RFC 2781. */
  function Utf16Len(r: Scalar): nat {
    if r > 0xFFFF then 2 else 1
  }

  type Cost = Unit -> nat

  const RUNES: Cost := (u: Unit) => 1
  const UNITS_16: Cost := (u: Unit) => Utf16Len(Decoded(u))
  /** What writing a unit costs in bytes. */
  const WRITTEN_BYTES: Cost := (u: Unit) => RuneLen(Decoded(u))
  /** What a unit occupies in the string as it is. */
  const STORED_BYTES: Cost := (u: Unit) => if u.Rune? then RuneLen(u.r) else 1

  function Total(s: Text, cost: Cost): nat {
    if s == [] then 0 else cost(s[0]) + Total(s[1..], cost)
  }

  function AllWritten(s: Text): Text {
    seq(|s|, i requires 0 <= i < |s| => Written(s[i]))
  }

  /** How many units fit a budget. */
  function Fit(s: Text, budget: int, cost: Cost): (k: nat)
    ensures k <= |s|
  {
    if s == [] || cost(s[0]) > budget then 0 else 1 + Fit(s[1..], budget - cost(s[0]), cost)
  }

  /** The prefix that fits a budget, and an ellipsis. */
  function Cut(s: Text, budget: int, cost: Cost): Text {
    AllWritten(s[..Fit(s, budget, cost)]) + [ELLIPSIS]
  }

  /** Truncation to a maximum that counts the ellipsis. */
  function Truncated(s: Text, max: int, cost: Cost): Text {
    if Total(s, cost) <= max then s else Cut(s, max - 1, cost)
  }

  /** Byte truncation, which fills the whole maximum before it adds the ellipsis. */
  function BytesTruncated(s: Text, max: int): Text {
    if Total(s, STORED_BYTES) > max then Cut(s, max, WRITTEN_BYTES) else s
  }

  // ---------------------------------------------------------------- what the costs are

  /** The bytes of a scalar value, section 3 of RFC 3629. */
  function Utf8(r: Scalar): seq<int> {
    var x := r as int;
    if x < 0x80 then [x]
    else if x < 0x800 then [0xC0 + x / 0x40, 0x80 + x % 0x40]
    else if x < 0x10000 then [0xE0 + x / 0x40 / 0x40, 0x80 + x / 0x40 % 0x40, 0x80 + x % 0x40]
    else [0xF0 + x / 0x40 / 0x40 / 0x40, 0x80 + x / 0x40 / 0x40 % 0x40, 0x80 + x / 0x40 % 0x40, 0x80 + x % 0x40]
  }

  /** The code units of a scalar value, section 2.1 of RFC 2781. */
  function Utf16(r: Scalar): seq<int> {
    var x := r as int;
    if x < 0x10000 then [x] else [0xD800 + (x - 0x10000) / 0x400, 0xDC00 + (x - 0x10000) % 0x400]
  }

  /** The bytes of a string: those of its runes, and its broken bytes. */
  function Stored(s: Text): seq<int> {
    if s == [] then [] else (if s[0].Rune? then Utf8(s[0].r) else [s[0].b as int]) + Stored(s[1..])
  }

  /** The code units of a string once decoded. */
  function Units16(s: Text): seq<int> {
    if s == [] then [] else Utf16(if s[0].Rune? then s[0].r else 0xFFFD) + Units16(s[1..])
  }

  /** The payload bits of the bytes, or of the code units, put together again. */
  function FromUtf8(b: seq<int>): int {
    if |b| == 1 then b[0]
    else if |b| == 2 then (b[0] - 0xC0) * 0x40 + b[1] - 0x80
    else if |b| == 3 then ((b[0] - 0xE0) * 0x40 + b[1] - 0x80) * 0x40 + b[2] - 0x80
    else if |b| == 4 then (((b[0] - 0xF0) * 0x40 + b[1] - 0x80) * 0x40 + b[2] - 0x80) * 0x40 + b[3] - 0x80
    else -1
  }

  function FromUtf16(u: seq<int>): int {
    if |u| == 1 then u[0] else if |u| == 2 then 0x10000 + (u[0] - 0xD800) * 0x400 + u[1] - 0xDC00 else -1
  }

  /** Both encodings can be undone, and consist of bytes and 16-bit units. */
  lemma EncodingsUndone(r: Scalar)
    ensures FromUtf8(Utf8(r)) == r as int && FromUtf16(Utf16(r)) == r as int
    ensures (forall b <- Utf8(r) :: 0 <= b < 0x100) && (forall u <- Utf16(r) :: 0 <= u < 0x10000)
  {
  }

  /** The budgets count what they are said to count: bytes and UTF-16 code units. */
  lemma {:induction false} CostsMean(s: Text)
    ensures Total(s, STORED_BYTES) == |Stored(s)|
    ensures Total(s, WRITTEN_BYTES) == |Stored(AllWritten(s))|
    ensures Total(s, UNITS_16) == |Units16(s)|
  {
    if s != [] {
      CostsMean(s[1..]);
      assert AllWritten(s)[1..] == AllWritten(s[1..]);
    }
  }

  /** Decoding and writing keeps runes and puts U+FFFD in the place of broken bytes. */
  lemma WrittenMeans(s: Text)
    ensures |AllWritten(s)| == |s|
    ensures forall i :: 0 <= i < |s| ==> AllWritten(s)[i] == if s[i].Rune? then s[i] else Rune(0xFFFD)
  {
  }

  // ---------------------------------------------------------------- facts about prefixes

  lemma {:induction false} TotalConcat(a: Text, b: Text, cost: Cost)
    ensures Total(a + b, cost) == Total(a, cost) + Total(b, cost)
  {
    if a == [] {
      assert a + b == b;
    } else {
      TotalConcat(a[1..], b, cost);
      assert (a + b)[1..] == a[1..] + b;
    }
  }

  lemma {:induction false} TotalRunes(s: Text)
    ensures Total(s, RUNES) == |s|
  {
    if s != [] {
      TotalRunes(s[1..]);
    }
  }

  /** Costs that survive writing, never vanish, and make the ellipsis one unit. */
  ghost predicate Fair(cost: Cost) {
    forall u :: cost(u) > 0 && cost(Written(u)) == cost(u)
  }

  lemma {:induction false} TotalWritten(s: Text, cost: Cost)
    requires Fair(cost)
    ensures Total(AllWritten(s), cost) == Total(s, cost)
  {
    if s != [] {
      TotalWritten(s[1..], cost);
      assert AllWritten(s)[1..] == AllWritten(s[1..]);
    }
  }

  lemma {:induction false} TotalMonotone(s: Text, i: nat, j: nat, cost: Cost)
    requires Fair(cost) && i < j <= |s|
    ensures Total(s[..i], cost) < Total(s[..j], cost)
  {
    assert s[..j] == s[..i] + s[i..j];
    TotalConcat(s[..i], s[i..j], cost);
  }

  /** The kept prefix is within a budget that is not negative, and no longer prefix is. */
  lemma {:induction false} FitIsLongest(s: Text, budget: int, cost: Cost, j: nat)
    requires Fair(cost) && j <= |s|
    ensures var k := Fit(s, budget, cost);
            && (budget >= 0 ==> Total(s[..k], cost) <= budget) && (budget < 0 ==> k == 0)
            && (Total(s[..j], cost) <= budget ==> j <= k)
  {
    if s != [] {
      var k := Fit(s, budget, cost);
      if cost(s[0]) <= budget {
        FitIsLongest(s[1..], budget - cost(s[0]), cost, if j == 0 then 0 else j - 1);
        assert s[..k][1..] == s[1..][..k - 1];
      }
      if j > 0 {
        assert s[..j][1..] == s[1..][..j - 1];
      }
    }
  }

  // ---------------------------------------------------------------- truncation

  function TruncateRunes(s: Text, max: int): (Text, bool) {
    if |s| <= max then (s, false)
    else if max <= 1 then ([ELLIPSIS], true)
    else (AllWritten(s)[..max - 1] + [ELLIPSIS], true)
  }

  lemma {:induction false} FitRunes(s: Text, budget: int)
    ensures Fit(s, budget, RUNES) == if budget <= 0 then 0 else if budget <= |s| then budget else |s|
  {
    if s != [] && budget > 0 {
      FitRunes(s[1..], budget - 1);
    }
  }

  lemma TruncateRunesTruncates(s: Text, max: int)
    ensures TruncateRunes(s, max) == (Truncated(s, max, RUNES), |s| > max)
  {
    TotalRunes(s);
    FitRunes(s, max - 1);
    assert AllWritten(s[..0]) + [ELLIPSIS] == [ELLIPSIS];
    if max > 1 && |s| > max {
      assert AllWritten(s)[..max - 1] == AllWritten(s[..max - 1]);
    }
  }

  /** The loop both budgeted truncations share: writes decoded units while they fit. */
  method WriteWhileFits(s: Text, budget: int, cost: Cost) returns (b: Text)
    ensures b == AllWritten(s[..Fit(s, budget, cost)])
  {
    b := [];
    var count, i := 0, 0;
    while i < |s|
      invariant i <= |s| && b == AllWritten(s[..i])
      invariant Fit(s, budget, cost) == i + Fit(s[i..], budget - count, cost)
    {
      var n := cost(s[i]);
      if count + n > budget {
        break;
      }
      assert s[i..][1..] == s[i + 1..] && s[..i + 1] == s[..i] + [s[i]];
      b := b + [Written(s[i])];
      count := count + n;
      i := i + 1;
    }
  }

  method Count(s: Text, cost: Cost) returns (count: nat)
    ensures count == Total(s, cost)
  {
    count := 0;
    for i := 0 to |s|
      invariant count == Total(s[..i], cost)
    {
      assert s[..i + 1] == s[..i] + [s[i]];
      TotalConcat(s[..i], [s[i]], cost);
      count := count + cost(s[i]);
    }
    assert s[..|s|] == s;
  }

  /** Byte truncation fills the whole budget and then adds the ellipsis. */
  method TruncateBytes(s: Text, max: int) returns (r: Text, cut: bool)
    ensures cut == (Total(s, STORED_BYTES) > max)
    ensures r == BytesTruncated(s, max)
  {
    var size := Count(s, STORED_BYTES);
    if size <= max {
      return s, false;
    }
    var b := WriteWhileFits(s, max, WRITTEN_BYTES);
    if |b| == 0 {
      return [ELLIPSIS], true;
    }
    return b + [ELLIPSIS], true;
  }

  method TruncateUTF16(s: Text, max: int) returns (r: Text, cut: bool)
    ensures cut == (Total(s, UNITS_16) > max)
    ensures r == Truncated(s, max, UNITS_16)
  {
    var size := Count(s, UNITS_16);
    if size <= max {
      return s, false;
    }
    var budget := max - 1;
    FairCosts();
    FitIsLongest(s, budget, UNITS_16, 0);
    if budget <= 0 {
      if s != [] {
        assert Fit(s, budget, UNITS_16) == 0;
      }
      return [ELLIPSIS], true;
    }
    var b := WriteWhileFits(s, budget, UNITS_16);
    if |b| == 0 {
      return [ELLIPSIS], true;
    }
    return b + [ELLIPSIS], true;
  }

  lemma FairCosts()
    ensures Fair(RUNES) && Fair(UNITS_16) && Fair(WRITTEN_BYTES)
    ensures RUNES(ELLIPSIS) == 1 && UNITS_16(ELLIPSIS) == 1 && WRITTEN_BYTES(ELLIPSIS) == 3
  {
  }

  /** A truncated text is within its maximum exactly when the maximum leaves room for the ellipsis. */
  lemma TruncatedFits(s: Text, max: int, cost: Cost)
    requires Fair(cost) && cost(ELLIPSIS) == 1
    ensures Total(Truncated(s, max, cost), cost) <= max <==> max >= 1 || (max == 0 && s == [])
  {
    var k := Fit(s, max - 1, cost);
    FitIsLongest(s, max - 1, cost, 0);
    TotalWritten(s[..k], cost);
    TotalConcat(AllWritten(s[..k]), [ELLIPSIS], cost);
    if s != [] {
      TotalMonotone(s, 0, |s|, cost);
      assert s[..|s|] == s;
    }
  }

  /** A text that fits stays; another becomes its longest prefix with room for the ellipsis, and that. */
  lemma TruncatedMeans(s: Text, max: int, cost: Cost, j: nat) returns (k: nat)
    requires Fair(cost) && j <= |s|
    ensures Total(s, cost) <= max ==> Truncated(s, max, cost) == s
    ensures Total(s, cost) > max ==> k <= |s| && Truncated(s, max, cost) == AllWritten(s[..k]) + [Rune(0x2026)]
    ensures Total(s, cost) > max > 0 ==> Total(s[..k], cost) < max && (Total(s[..j], cost) < max ==> j <= k)
    ensures Total(s, cost) > max && max <= 0 ==> k == 0
  {
    k := Fit(s, max - 1, cost);
    FitIsLongest(s, max - 1, cost, j);
    if s != [] && max <= 1 {
      assert k == 0;
    }
  }

  /** What decoding wrote occupies as many bytes as writing it cost. */
  lemma {:induction false} StoredAsWritten(s: Text)
    ensures Total(AllWritten(s), STORED_BYTES) == Total(s, WRITTEN_BYTES)
  {
    if s != [] {
      StoredAsWritten(s[1..]);
      assert AllWritten(s)[1..] == AllWritten(s[1..]);
    }
  }

  /** The size of a cut text, for every budget: the longest prefix that fits, and three bytes. */
  lemma CutBytesOverrun(s: Text, max: int, j: nat)
    requires j <= |s|
    ensures var k := Fit(s, max, WRITTEN_BYTES);
            && Total(Cut(s, max, WRITTEN_BYTES), STORED_BYTES) == Total(s[..k], WRITTEN_BYTES) + 3
            && Total(s[..k], WRITTEN_BYTES) <= (if max < 0 then 0 else max)
            && (Total(s[..j], WRITTEN_BYTES) <= max ==> j <= k)
  {
    FairCosts();
    FitIsLongest(s, max, WRITTEN_BYTES, j);
    var k := Fit(s, max, WRITTEN_BYTES);
    StoredAsWritten(s[..k]);
    TotalConcat(AllWritten(s[..k]), [ELLIPSIS], STORED_BYTES);
  }

  /** Every prefix within the budget leaves three bytes of it. */
  ghost predicate LeavesRoom(s: Text, max: int) {
    forall j :: 0 <= j <= |s| && Total(s[..j], WRITTEN_BYTES) <= max ==> Total(s[..j], WRITTEN_BYTES) <= max - 3
  }

  /**
   The result of byte truncation is within its budget exactly when the text was, or when the
   budget has room for an ellipsis and no prefix comes closer to it than that.
   */
  lemma BytesFitExactly(s: Text, max: int)
    ensures Total(BytesTruncated(s, max), STORED_BYTES) <= max
            <==> Total(s, STORED_BYTES) <= max || (max >= 3 && LeavesRoom(s, max))
  {
    var k := Fit(s, max, WRITTEN_BYTES);
    CutBytesOverrun(s, max, k);
    forall j | 0 <= j <= |s| && Total(s[..j], WRITTEN_BYTES) <= max
      ensures Total(s[..j], WRITTEN_BYTES) <= Total(s[..k], WRITTEN_BYTES)
    {
      CutBytesOverrun(s, max, j);
      FairCosts();
      if j < k {
        TotalMonotone(s, j, k, WRITTEN_BYTES);
      }
    }
  }

  /** The text "aa" cut to one byte takes four. */
  lemma BytesOverrunAtTwoLetters()
    ensures var s := [Rune(0x61), Rune(0x61)];
            Total(s, STORED_BYTES) > 1 && Total(BytesTruncated(s, 1), STORED_BYTES) == 4
  {
    var s := [Rune(0x61), Rune(0x61)];
    assert s[1..] == [Rune(0x61)] && s[..1] == [Rune(0x61)];
    assert s[1..][1..] == [];
    assert Fit(s, 1, WRITTEN_BYTES) == 1;
    CutBytesOverrun(s, 1, 1);
    assert s[..1][1..] == [];
  }

  // ---------------------------------------------------------------- mentions

  /** Every '@' gets a zero-width space after it. */
  function BreakMentions(s: Text): Text {
    if s == [] then []
    else (if s[0] == AT_SIGN then [AT_SIGN, ZERO_WIDTH] else [s[0]]) + BreakMentions(s[1..])
  }

  /** An '@' anywhere is followed by a zero-width space. */
  ghost predicate Broken(s: Text) {
    forall i :: 0 <= i < |s| && s[i] == AT_SIGN ==> i + 1 < |s| && s[i + 1] == ZERO_WIDTH
  }

  /** An '@' anywhere is followed by a zero-width space, or by an ellipsis. */
  ghost predicate Harmless(s: Text) {
    forall i :: 0 <= i < |s| && s[i] == AT_SIGN ==> i + 1 < |s| && (s[i + 1] == ZERO_WIDTH || s[i + 1] == ELLIPSIS)
  }

  lemma {:induction false} BrokenIsHarmless(s: Text)
    ensures Broken(BreakMentions(s)) && Harmless(BreakMentions(s))
  {
    if s != [] {
      BrokenIsHarmless(s[1..]);
      var first := if s[0] == AT_SIGN then [AT_SIGN, ZERO_WIDTH] else [s[0]];
      BrokenConcat(first, BreakMentions(s[1..]));
    }
  }

  /** Takes one zero-width space away behind every '@'. */
  function Mended(s: Text): Text {
    if s == [] then []
    else if s[0] == Rune(0x40) && |s| > 1 && s[1] == Rune(0x200B) then [s[0]] + Mended(s[2..])
    else [s[0]] + Mended(s[1..])
  }

  /** Breaking mentions loses nothing: taking the added spaces away gives the text again. */
  lemma {:induction false} MendInvertsBreak(s: Text)
    ensures Mended(BreakMentions(s)) == s
  {
    if s != [] {
      MendInvertsBreak(s[1..]);
      var b := BreakMentions(s);
      if s[0] == AT_SIGN {
        assert b[2..] == BreakMentions(s[1..]);
      } else {
        assert b[1..] == BreakMentions(s[1..]);
      }
      assert s == [s[0]] + s[1..];
    }
  }

  lemma BrokenConcat(a: Text, b: Text)
    requires Broken(a) && Broken(b)
    ensures Broken(a + b)
  {
    var c := a + b;
    forall i | 0 <= i < |c| && c[i] == AT_SIGN
      ensures i + 1 < |c| && c[i + 1] == ZERO_WIDTH
    {
      if i < |a| {
        assert a[i] == AT_SIGN;
      } else {
        assert b[i - |a|] == AT_SIGN;
      }
    }
  }

  lemma HarmlessConcat(a: Text, b: Text)
    requires Harmless(a) && Harmless(b)
    ensures Harmless(a + b)
  {
    var c := a + b;
    forall i | 0 <= i < |c| && c[i] == AT_SIGN
      ensures i + 1 < |c| && (c[i + 1] == ZERO_WIDTH || c[i + 1] == ELLIPSIS)
    {
      if i < |a| {
        assert a[i] == AT_SIGN;
      } else {
        assert b[i - |a|] == AT_SIGN;
      }
    }
  }

  /** Cutting does not expose an '@': the ellipsis takes the place of what followed it. */
  lemma CutIsHarmless(s: Text, k: nat)
    requires Harmless(s) && k <= |s|
    ensures Harmless(AllWritten(s[..k]) + [ELLIPSIS])
  {
    var c := AllWritten(s[..k]) + [ELLIPSIS];
    forall i | 0 <= i < |c| && c[i] == AT_SIGN
      ensures i + 1 < |c| && (c[i + 1] == ZERO_WIDTH || c[i + 1] == ELLIPSIS)
    {
      assert i < k && c[i] == Written(s[i]);
      assert s[i] == AT_SIGN;
      if i + 1 < k {
        assert c[i + 1] == Written(s[i + 1]);
      }
    }
  }

  // ---------------------------------------------------------------- composing

  function Head(title: Text, text: Text): Text {
    BreakMentions(title) + [NEWLINE, NEWLINE] + BreakMentions(text)
  }

  function UrlBlock(url: Text): Text {
    if url == [] then [] else [NEWLINE, NEWLINE] + url
  }

  /** What a composed message is: the URL block reserved, the head cut to the rest. */
  function Composed(title: Text, text: Text, url: Text, max: int, cost: Cost): Text {
    var block := UrlBlock(url);
    if Total(block, cost) >= max then Truncated(block, max, cost)
    else Truncated(Head(title, text), max - Total(block, cost), cost) + block
  }

  method ComposeText(title: Text, text: Text, url: Text, max: int) returns (r: Text)
    ensures r == Composed(title, text, url, max, RUNES)
  {
    var head := BreakMentions(title) + [NEWLINE, NEWLINE] + BreakMentions(text);
    var block := UrlBlock(url);
    TotalRunes(block);
    TruncateRunesTruncates(block, max);
    TruncateRunesTruncates(head, max - |block|);
    if |block| >= max {
      return TruncateRunes(block, max).0;
    }
    return TruncateRunes(head, max - |block|).0 + block;
  }

  method ComposeTextUTF16(title: Text, text: Text, url: Text, max: int) returns (r: Text)
    ensures r == Composed(title, text, url, max, UNITS_16)
  {
    var head := BreakMentions(title) + [NEWLINE, NEWLINE] + BreakMentions(text);
    var block := UrlBlock(url);
    var urlLen := Count(block, UNITS_16);
    var cut: bool;
    if urlLen >= max {
      r, cut := TruncateUTF16(block, max);
      return;
    }
    head, cut := TruncateUTF16(head, max - urlLen);
    return head + block;
  }

  /** The message when everything fits, and when the URL leaves no room for anything else. */
  lemma ComposedMeans(title: Text, text: Text, url: Text, max: int, cost: Cost)
    ensures var gap := [Rune(0x0A), Rune(0x0A)];
            var head, tail := BreakMentions(title) + gap + BreakMentions(text), if url == [] then [] else gap + url;
            && (Total(tail, cost) < max && Total(head, cost) + Total(tail, cost) <= max ==>
                  Composed(title, text, url, max, cost) == head + tail)
            && (Total(tail, cost) >= max ==> Composed(title, text, url, max, cost) == Truncated(tail, max, cost))
  {
  }

  /** A message is within its maximum exactly when the maximum is positive, or zero with no URL. */
  lemma ComposedFits(title: Text, text: Text, url: Text, max: int, cost: Cost)
    requires Fair(cost) && cost(ELLIPSIS) == 1
    ensures Total(Composed(title, text, url, max, cost), cost) <= max <==> max >= 1 || (max == 0 && url == [])
  {
    var block, head := UrlBlock(url), Head(title, text);
    TruncatedFits(block, max, cost);
    if Total(block, cost) < max {
      TruncatedFits(head, max - Total(block, cost), cost);
      TotalConcat(Truncated(head, max - Total(block, cost), cost), block, cost);
    }
  }

  /**
   When the URL block is shorter than the maximum it survives whole, the head before it is
   the whole head or its longest prefix that leaves room for the ellipsis, and no '@' of the
   head is left bare.
   */
  lemma ComposedKeepsUrl(title: Text, text: Text, url: Text, max: int, cost: Cost, j: nat)
    requires Fair(cost) && cost(ELLIPSIS) == 1 && Total(UrlBlock(url), cost) < max
    requires j <= |Head(title, text)|
    ensures var block, head, r := UrlBlock(url), Head(title, text), Composed(title, text, url, max, cost);
            var room := max - Total(block, cost);
            && |block| <= |r| && r[|r| - |block|..] == block && Harmless(r[..|r| - |block|])
            && (Total(head, cost) <= room ==> r == head + block)
            && (Total(head, cost) > room ==>
                  var k := Fit(head, room - 1, cost);
                  && r == AllWritten(head[..k]) + [ELLIPSIS] + block && Total(head[..k], cost) <= room - 1
                  && (Total(head[..j], cost) <= room - 1 ==> j <= k))
  {
    var block, head, r := UrlBlock(url), Head(title, text), Composed(title, text, url, max, cost);
    var room := max - Total(block, cost);
    var front := Truncated(head, room, cost);
    PartsOfConcat(front, block);
    HeadIsHarmless(title, text);
    CutIsHarmless(head, Fit(head, room - 1, cost));
    FitIsLongest(head, room - 1, cost, j);
  }

  lemma PartsOfConcat(a: Text, b: Text)
    ensures (a + b)[..|a + b| - |b|] == a && (a + b)[|a + b| - |b|..] == b
  {
  }

  lemma HeadIsHarmless(title: Text, text: Text)
    ensures Harmless(Head(title, text))
  {
    BrokenIsHarmless(title);
    BrokenIsHarmless(text);
    HarmlessConcat(BreakMentions(title), [NEWLINE, NEWLINE]);
    HarmlessConcat(BreakMentions(title) + [NEWLINE, NEWLINE], BreakMentions(text));
  }

  // ---------------------------------------------------------------- Discord escapes

  function EscapedUnit(u: Unit): Text {
    if Written(u) in SPECIAL then [BACKSLASH, Written(u)] else [Written(u)]
  }

  function Escaped(s: Text): Text {
    if s == [] then [] else EscapedUnit(s[0]) + Escaped(s[1..])
  }

  /** Which characters get a backslash. */
  lemma EscapedMeans(u: Unit)
    ensures var r := if u.Rune? then u.r else 0xFFFD;
            EscapedUnit(u) == if r as char in "\\`*_~|<>@#" then [Rune('\\' as Scalar), Rune(r)] else [Rune(r)]
  {
  }

  lemma EscapeStep(s: Text, i: nat, b: Text)
    requires i < |s|
    ensures (b + EscapedUnit(s[i])) + Escaped(s[i + 1..]) == b + Escaped(s[i..])
  {
    assert s[i..][1..] == s[i + 1..];
  }

  method EscapeDiscordMarkdown(s: Text) returns (b: Text)
    ensures b == Escaped(s)
  {
    b := [];
    for i := 0 to |s|
      invariant b + Escaped(s[i..]) == Escaped(s)
    {
      EscapeStep(s, i, b);
      ghost var before := b;
      if Written(s[i]) in SPECIAL {
        b := b + [BACKSLASH];
      }
      b := b + [Written(s[i])];
      assert b == before + EscapedUnit(s[i]);
    }
  }

  /** Drops each escaping backslash and keeps what it protects. */
  function Unescaped(s: Text): Text {
    if s == [] then []
    else if s[0] == BACKSLASH && |s| > 1 then [s[1]] + Unescaped(s[2..])
    else [s[0]] + Unescaped(s[1..])
  }

  /** Unescaping recovers the decoded text, and the text itself exactly when it was valid UTF-8. */
  lemma {:induction false} UnescapeInvertsEscape(s: Text)
    ensures Unescaped(Escaped(s)) == AllWritten(s)
    ensures AllWritten(s) == s <==> forall i :: 0 <= i < |s| ==> s[i].Rune?
  {
    if s != [] {
      UnescapeInvertsEscape(s[1..]);
      var e := Escaped(s);
      if Written(s[0]) in SPECIAL {
        assert e[2..] == Escaped(s[1..]);
      } else {
        assert e[0] != BACKSLASH && e[1..] == Escaped(s[1..]);
      }
      assert AllWritten(s) == [Written(s[0])] + AllWritten(s[1..]);
      assert forall i :: 0 <= i < |s| ==> AllWritten(s)[i] == Written(s[i]);
    }
  }
}
