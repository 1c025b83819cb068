/** The texts that the KHI node joins into its fault message. */
module KhiText {
  import opened DecimalText

  function Join(separator: string, items: seq<string>): string {
    if items == [] then ""
    else if |items| == 1 then items[0]
    else items[0] + separator + Join(separator, items[1..])
  }

  function DropLeadingEmpty(items: seq<string>): seq<string> {
    if items == [] then []
    else if items[0] == "" then DropLeadingEmpty(items[1..])
    else items
  }

  predicate AllEmpty(items: seq<string>) {
    forall i :: 0 <= i < |items| ==> items[i] == ""
  }

  lemma {:induction false} JoinSnoc(separator: string, items: seq<string>, last: string)
    requires items != []
    ensures Join(separator, items + [last]) == Join(separator, items) + separator + last
    decreases |items|
  {
    if |items| > 1 {
      JoinSnoc(separator, items[1..], last);
      assert (items + [last])[1..] == items[1..] + [last];
    } else {
      assert (items + [last])[1..] == [last];
    }
  }

  lemma {:induction false} DropSnoc(items: seq<string>, last: string)
    ensures DropLeadingEmpty(items) == [] <==> AllEmpty(items)
    ensures DropLeadingEmpty(items) != [] ==> DropLeadingEmpty(items)[0] != ""
    ensures DropLeadingEmpty(items + [last]) ==
            if AllEmpty(items) then (if last == "" then [] else [last]) else DropLeadingEmpty(items) + [last]
    decreases |items|
  {
    if items == [] {
      assert items + [last] == [last];
    } else {
      DropSnoc(items[1..], last);
      assert (items + [last])[1..] == items[1..] + [last];
      assert items == [items[0]] + items[1..];
      if items[0] == "" && AllEmpty(items[1..]) {
        assert AllEmpty(items);
      }
    }
  }

  /** With the first non-empty item at `k`, exactly the items before it are dropped. */
  lemma {:induction false} DroppedIs(items: seq<string>, k: nat)
    requires k < |items| && AllEmpty(items[..k]) && items[k] != ""
    ensures DropLeadingEmpty(items) == items[k..] && !AllEmpty(items)
    decreases k
  {
    if k > 0 {
      assert items[..k][0] == "";
      assert items[1..][..k - 1] == items[..k][1..];
      DroppedIs(items[1..], k - 1);
    }
  }

  /** The loop that separates only non-empty prefixes: leading empty items leave no trace,
      later ones do, and the text is empty exactly when every item is. */
  method JoinNonEmpty(separator: string, items: seq<string>) returns (text: string)
    requires separator != ""
    ensures text == Join(separator, DropLeadingEmpty(items))
    ensures text == "" <==> AllEmpty(items)
  {
    text := "";
    for i := 0 to |items|
      invariant text == Join(separator, DropLeadingEmpty(items[..i]))
      invariant text == "" <==> AllEmpty(items[..i])
    {
      assert items[..i + 1] == items[..i] + [items[i]];
      DropSnoc(items[..i], items[i]);
      ghost var kept := DropLeadingEmpty(items[..i]);
      if kept != [] {
        JoinSnoc(separator, kept, items[i]);
      }
      if text != "" {
        text := text + separator;
      }
      text := text + items[i];
    }
    assert items[..|items|] == items;
  }

  // ---- Decimal prints of error codes ----

  function Decimals(codes: seq<int>): (texts: seq<string>)
    ensures |texts| == |codes| && forall i :: 0 <= i < |texts| ==> texts[i] == Decimal(codes[i])
  {
    seq(|codes|, i requires 0 <= i < |codes| => Decimal(codes[i]))
  }

  lemma {:induction false} DecimalsSnoc(codes: seq<int>, last: int)
    ensures Decimals(codes + [last]) == Decimals(codes) + [Decimal(last)]
  {
  }

  /** The loop over the codes, whose prints are never empty. */
  method JoinCodes(codes: seq<int>) returns (text: string)
    ensures text == Join(", ", Decimals(codes))
    ensures text == "" <==> codes == []
  {
    text := "";
    for i := 0 to |codes|
      invariant text == Join(", ", Decimals(codes[..i]))
      invariant text == "" <==> i == 0
    {
      assert codes[..i + 1] == codes[..i] + [codes[i]];
      DecimalsSnoc(codes[..i], codes[i]);
      if i > 0 {
        JoinSnoc(", ", Decimals(codes[..i]), Decimal(codes[i]));
      }
      if text != "" {
        text := text + ", ";
      }
      text := text + Decimal(codes[i]);
    }
    assert codes[..|codes|] == codes;
  }

  function FirstComma(s: string): (k: nat)
    ensures k <= |s|
  {
    if s == "" || s[0] == ',' then 0 else 1 + FirstComma(s[1..])
  }

  function ParseCodes(s: string): seq<int>
    decreases |s|
  {
    var k := FirstComma(s);
    if |s| < k + 2 then [ParseDecimal(s)]
    else [ParseDecimal(s[..k])] + ParseCodes(s[k + 2..])
  }

  lemma {:induction false} FirstCommaAfter(word: string, rest: string)
    requires ',' !in word && (rest == "" || rest[0] == ',')
    ensures FirstComma(word + rest) == |word|
    decreases |word|
  {
    if word == "" {
      assert word + rest == rest;
    } else {
      FirstCommaAfter(word[1..], rest);
      assert (word + rest)[1..] == word[1..] + rest;
    }
  }

  /** The list of signed codes can be read back from the joined text. */
  lemma {:induction false} CodesRoundTrip(codes: seq<int>)
    requires codes != []
    ensures ParseCodes(Join(", ", Decimals(codes))) == codes
    decreases |codes|
  {
    var word := Decimal(codes[0]);
    var text := Join(", ", Decimals(codes));
    DecimalRoundTrip(codes[0]);
    if |codes| == 1 {
      FirstCommaAfter(word, "");
      assert word + "" == word == text;
    } else {
      var rest := Join(", ", Decimals(codes[1..]));
      assert Decimals(codes)[1..] == Decimals(codes[1..]);
      assert text == word + (", " + rest);
      FirstCommaAfter(word, ", " + rest);
      assert text[..|word|] == word && text[|word| + 2..] == rest;
      CodesRoundTrip(codes[1..]);
    }
  }
}
