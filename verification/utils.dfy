/**
 The pure helpers of `src/utils/Utils.ts`: payment-transaction verification
 and three string formatters.
 */
module Utils {
  import opened Wrappers
  import Js

  // ---------------------------------------------------------------------------
  // Payment-transaction verification
  // ---------------------------------------------------------------------------

  /** An entry of a transaction's `inputs`: the outpoint it spends and that outpoint's owner. */
  datatype TxnInput = TxnInput(previousOutpointAddress: string, amount: int)

  /** An entry of a transaction's `outputs`: the credited address and the amount in sompi. */
  datatype TxnOutput = TxnOutput(scriptPublicKeyAddress: string, amount: int)

  /** The transaction record returned by the indexer lookup. */
  datatype TxnRecord = TxnRecord(inputs: seq<TxnInput>, outputs: seq<TxnOutput>)

  /** `senderAddr` funded the transaction: some input spends an outpoint it owned. */
  predicate SenderFunded(txn: TxnRecord, senderAddr: string) {
    exists i :: 0 <= i < |txn.inputs| && txn.inputs[i].previousOutpointAddress == senderAddr
  }

  /** One output credits exactly `amount` to `receiverAddr`. */
  predicate PaysExactly(output: TxnOutput, receiverAddr: string, amount: int) {
    output.amount == amount && output.scriptPublicKeyAddress == receiverAddr
  }

  /** Some single output of the transaction credits exactly `amount` to `receiverAddr`. */
  predicate ReceiverPaid(txn: TxnRecord, receiverAddr: string, amount: int) {
    exists j :: 0 <= j < |txn.outputs| && PaysExactly(txn.outputs[j], receiverAddr, amount)
  }

  /**
   `verifyPaymentTransaction`. `txnInfo` is what the indexer lookup of the
   transaction id resolved to (`None` when it found nothing). The receiver
   defaults to the platform wallet, `kaspianoWallet`, read from the build
   environment. The verdict is the two `find` searches of the source: a
   matching input, then a single output matching both receiver and amount.
   */
  function VerifyPaymentTransaction(kaspianoWallet: string, txnInfo: Option<TxnRecord>, senderAddr: string,
                                    amount: int, receiverAddr: string := kaspianoWallet): (verified: bool)
    ensures verified <==> txnInfo.Some? && SenderFunded(txnInfo.value, senderAddr)
                          && ReceiverPaid(txnInfo.value, receiverAddr, amount)
  {
    match txnInfo
    case None => false
    case Some(txn) =>
      var input := Js.Find(txn.inputs, (i: TxnInput) => i.previousOutpointAddress == senderAddr);
      if input.None? then false
      else
        var output := Js.Find(txn.outputs,
                              (o: TxnOutput) => o.amount == amount && o.scriptPublicKeyAddress == receiverAddr);
        if output.None? then false
        else true
  }

  /** A lookup that found nothing is a rejection, not a distinct outcome. */
  lemma LookupMissRejects(kaspianoWallet: string, senderAddr: string, amount: int, receiverAddr: string)
    ensures !VerifyPaymentTransaction(kaspianoWallet, None, senderAddr, amount, receiverAddr)
  {
  }

  /** Without an input from the sender the payment is rejected, whatever the outputs say. */
  lemma NoSenderInputRejects(kaspianoWallet: string, txn: TxnRecord, senderAddr: string, amount: int,
                             receiverAddr: string)
    requires forall i :: 0 <= i < |txn.inputs| ==> txn.inputs[i].previousOutpointAddress != senderAddr
    ensures !VerifyPaymentTransaction(kaspianoWallet, Some(txn), senderAddr, amount, receiverAddr)
  {
  }

  /**
   Receiver and amount must match in the same output: an output to the
   receiver with another amount plus an output of the amount to someone else
   does not make a payment.
   */
  lemma SplitMatchRejects(kaspianoWallet: string, txn: TxnRecord, senderAddr: string, amount: int,
                          receiverAddr: string)
    requires forall j :: 0 <= j < |txn.outputs| ==>
               txn.outputs[j].scriptPublicKeyAddress == receiverAddr ==> txn.outputs[j].amount != amount
    ensures !VerifyPaymentTransaction(kaspianoWallet, Some(txn), senderAddr, amount, receiverAddr)
  {
  }

  /**
   Only an exact amount is accepted: when every output to the receiver pays
   `paid`, asking for any other amount (`paid + 1`, `paid - 1`, ...) is rejected,
   and asking for `paid` is accepted exactly when the sender funded it.
   */
  lemma {:induction false} AmountIsExact(kaspianoWallet: string, txn: TxnRecord, senderAddr: string,
                                         receiverAddr: string, paid: int, asked: int)
    requires exists j :: 0 <= j < |txn.outputs| && txn.outputs[j].scriptPublicKeyAddress == receiverAddr
    requires forall j :: 0 <= j < |txn.outputs| ==>
               txn.outputs[j].scriptPublicKeyAddress == receiverAddr ==> txn.outputs[j].amount == paid
    ensures VerifyPaymentTransaction(kaspianoWallet, Some(txn), senderAddr, asked, receiverAddr)
            <==> asked == paid && SenderFunded(txn, senderAddr)
  {
    var j :| 0 <= j < |txn.outputs| && txn.outputs[j].scriptPublicKeyAddress == receiverAddr;
    if asked == paid {
      assert PaysExactly(txn.outputs[j], receiverAddr, asked);
    }
  }

  /**
   Adding inputs or outputs never withdraws an acceptance: the checks are
   membership tests, so a transaction containing (as multisets) the entries
   of an accepted one is accepted too.
   */
  lemma {:induction false} VerifyMonotone(kaspianoWallet: string, txn: TxnRecord, bigger: TxnRecord,
                                          senderAddr: string, amount: int, receiverAddr: string)
    requires multiset(txn.inputs) <= multiset(bigger.inputs)
    requires multiset(txn.outputs) <= multiset(bigger.outputs)
    requires VerifyPaymentTransaction(kaspianoWallet, Some(txn), senderAddr, amount, receiverAddr)
    ensures VerifyPaymentTransaction(kaspianoWallet, Some(bigger), senderAddr, amount, receiverAddr)
  {
    var i :| 0 <= i < |txn.inputs| && txn.inputs[i].previousOutpointAddress == senderAddr;
    assert txn.inputs[i] in multiset(bigger.inputs);
    var i' :| 0 <= i' < |bigger.inputs| && bigger.inputs[i'] == txn.inputs[i];
    assert SenderFunded(bigger, senderAddr);
    var j :| 0 <= j < |txn.outputs| && PaysExactly(txn.outputs[j], receiverAddr, amount);
    assert txn.outputs[j] in multiset(bigger.outputs);
    var j' :| 0 <= j' < |bigger.outputs| && bigger.outputs[j'] == txn.outputs[j];
    assert ReceiverPaid(bigger, receiverAddr, amount);
  }

  /** The order of inputs and outputs does not affect the verdict. */
  lemma {:induction false} VerifyIgnoresOrder(kaspianoWallet: string, txn: TxnRecord, shuffled: TxnRecord,
                                              senderAddr: string, amount: int, receiverAddr: string)
    requires multiset(txn.inputs) == multiset(shuffled.inputs)
    requires multiset(txn.outputs) == multiset(shuffled.outputs)
    ensures VerifyPaymentTransaction(kaspianoWallet, Some(txn), senderAddr, amount, receiverAddr)
            == VerifyPaymentTransaction(kaspianoWallet, Some(shuffled), senderAddr, amount, receiverAddr)
  {
    if VerifyPaymentTransaction(kaspianoWallet, Some(txn), senderAddr, amount, receiverAddr) {
      VerifyMonotone(kaspianoWallet, txn, shuffled, senderAddr, amount, receiverAddr);
    }
    if VerifyPaymentTransaction(kaspianoWallet, Some(shuffled), senderAddr, amount, receiverAddr) {
      VerifyMonotone(kaspianoWallet, shuffled, txn, senderAddr, amount, receiverAddr);
    }
  }

  /**
   A transaction from "A" paying 100000000 sompi to "B" verifies for exactly
   that sender, receiver and amount, and for no neighbouring amount.
   */
  lemma SinglePaymentScenario(kaspianoWallet: string)
    ensures var txn := Some(TxnRecord([TxnInput("A", 500)], [TxnOutput("B", 100000000)]));
            && VerifyPaymentTransaction(kaspianoWallet, txn, "A", 100000000, "B")
            && !VerifyPaymentTransaction(kaspianoWallet, txn, "A", 99999999, "B")
            && !VerifyPaymentTransaction(kaspianoWallet, txn, "A", 100000001, "B")
            && !VerifyPaymentTransaction(kaspianoWallet, txn, "C", 100000000, "B")
  {
    var txn := TxnRecord([TxnInput("A", 500)], [TxnOutput("B", 100000000)]);
    assert txn.inputs[0].previousOutpointAddress == "A";
    assert PaysExactly(txn.outputs[0], "B", 100000000);
  }

  /** Without an explicit receiver, the payment must go to the platform wallet. */
  lemma DefaultReceiverIsPlatformWallet(kaspianoWallet: string, txn: TxnRecord, senderAddr: string, amount: int)
    ensures VerifyPaymentTransaction(kaspianoWallet, Some(txn), senderAddr, amount)
            <==> SenderFunded(txn, senderAddr) && ReceiverPaid(txn, kaspianoWallet, amount)
  {
  }

  // ---------------------------------------------------------------------------
  // shortenAddress
  // ---------------------------------------------------------------------------

  /**
   `shortenAddress`: an address longer than `startLength + endLength` is cut to
   its first `startLength` and last `endLength` characters around `"..."`.
   The lengths are JavaScript numbers, so negative ones go through
   `substring`'s clamping like in the source.
   */
  function ShortenAddress(address: string, startLength: int := 6, endLength: int := 4): (r: string)
    ensures |address| <= startLength + endLength ==> r == address
    ensures 0 <= startLength && 0 <= endLength && startLength + endLength < |address| ==>
              |r| == startLength + endLength + 3
              && r == address[..startLength] + "..." + address[|address| - endLength..]
  {
    if |address| <= startLength + endLength then address
    else
      var start := Js.Substring(address, 0, startLength);
      var end := Js.Substring(address, |address| - endLength, |address|);
      start + "..." + end
  }

  /**
   With the default lengths, an address of more than ten characters keeps its
   first six and last four characters, and the shortened form is 13 long; a
   shortened address keeps the original's prefix and suffix.
   */
  lemma ShortenAddressDefaults(address: string)
    ensures |address| <= 10 ==> ShortenAddress(address) == address
    ensures |address| > 10 ==>
              var r := ShortenAddress(address);
              |r| == 13 && r[..6] == address[..6] && r[6..9] == "..." && r[9..] == address[|address| - 4..]
  {
  }

  // ---------------------------------------------------------------------------
  // capitalizeFirstLetter
  // ---------------------------------------------------------------------------

  /** `capitalizeFirstLetter`: the empty string is returned as is, otherwise the first character is upper-cased. */
  function CapitalizeFirstLetter(s: string): (r: string)
    ensures s == "" ==> r == ""
    ensures |r| == |s|
    ensures s != "" ==> r[0] == Js.UpperCaseChar(s[0]) && r[1..] == s[1..]
  {
    if s == "" then s
    else Js.ToUpperCase(Js.CharAt(s, 0)) + Js.Slice(s, 1)
  }

  /**
   Capitalising is idempotent, never leaves a lower-case first letter, and
   changes nothing when the first character is not a lower-case letter.
   */
  lemma CapitalizeFirstLetterIdempotent(s: string)
    ensures CapitalizeFirstLetter(CapitalizeFirstLetter(s)) == CapitalizeFirstLetter(s)
    ensures s != "" ==> !Js.IsLowerAscii(CapitalizeFirstLetter(s)[0])
    ensures s != "" && !Js.IsLowerAscii(s[0]) ==> CapitalizeFirstLetter(s) == s
  {
    var r := CapitalizeFirstLetter(s);
    if s != "" {
      assert r == [r[0]] + r[1..];
      assert s == [s[0]] + s[1..];
    }
  }

  // ---------------------------------------------------------------------------
  // formatNumberWithCommas
  // ---------------------------------------------------------------------------

  // The source replaces every match of `\B(?=(\d{3})+(?!\d))` in the decimal
  // text of the number with ",". Each match is empty, so the replacement
  // inserts a comma before every position of the original text where the
  // pattern matches; the model checks the pattern position by position.

  predicate IsDigit(c: char) { '0' <= c <= '9' }

  /** `\w` of JavaScript regular expressions. */
  predicate IsWordChar(c: char) { IsDigit(c) || 'a' <= c <= 'z' || 'A' <= c <= 'Z' || c == '_' }

  /** Whether index `i` holds a word character (outside the text there is none). */
  predicate WordAt(s: string, i: int) { 0 <= i < |s| && IsWordChar(s[i]) }

  /** Length of the run of digits of `s` that starts at index `p`. */
  function DigitRun(s: string, p: nat): (n: nat)
    requires p <= |s|
    ensures p + n <= |s|
    decreases |s| - p
  {
    if p < |s| && IsDigit(s[p]) then 1 + DigitRun(s, p + 1) else 0
  }

  /**
   The pattern matches at position `p`: `\B` (no word boundary there) and the
   lookahead `(\d{3})+(?!\d)`, which holds when the run of digits starting at
   `p` is a positive multiple of three long.
   */
  predicate CommaBefore(s: string, p: nat)
    requires p <= |s|
  {
    WordAt(s, p - 1) == WordAt(s, p) && DigitRun(s, p) > 0 && DigitRun(s, p) % 3 == 0
  }

  /** The replacement applied to positions `lo` up to `hi` of `s`. */
  function Rewrite(s: string, lo: nat, hi: nat): string
    requires lo <= hi <= |s|
    decreases hi - lo
  {
    if hi == lo then ""
    else Rewrite(s, lo, hi - 1) + (if CommaBefore(s, hi - 1) then "," else "") + [s[hi - 1]]
  }

  /**
   `formatNumberWithCommas`, applied to the text `value.toString()`. The pattern
   cannot match at the very end (the lookahead needs a digit), so only the
   positions before each character are examined.
   */
  function FormatNumberWithCommas(text: string): string
  {
    Rewrite(text, 0, |text|)
  }

  /**
   The replacement only inserts commas: without its commas, the result is the
   input without its commas.
   */
  lemma FormatOnlyInsertsCommas(text: string)
    ensures StripCommas(FormatNumberWithCommas(text)) == StripCommas(text)
    ensures |FormatNumberWithCommas(text)| >= |text|
  {
    RewriteStripsBack(text, 0, |text|);
    assert text[0..|text|] == text;
  }

  /** `text` with every comma removed. */
  function StripCommas(text: string): (r: string)
    ensures |r| <= |text|
  {
    if text == [] then []
    else (if text[0] == ',' then [] else [text[0]]) + StripCommas(text[1..])
  }

  lemma {:induction false} StripCommasAppend(a: string, b: string)
    ensures StripCommas(a + b) == StripCommas(a) + StripCommas(b)
  {
    if a == [] {
      assert a + b == b;
    } else {
      assert (a + b)[0] == a[0];
      assert (a + b)[1..] == a[1..] + b;
      StripCommasAppend(a[1..], b);
    }
  }

  lemma {:induction false} RewriteStripsBack(s: string, lo: nat, hi: nat)
    requires lo <= hi <= |s|
    ensures StripCommas(Rewrite(s, lo, hi)) == StripCommas(s[lo..hi])
    ensures |Rewrite(s, lo, hi)| >= hi - lo
    decreases hi - lo
  {
    if hi > lo {
      var prev := Rewrite(s, lo, hi - 1);
      var mark: string := if CommaBefore(s, hi - 1) then "," else "";
      var c := [s[hi - 1]];
      assert StripCommas(prev) == StripCommas(s[lo..hi - 1]) && |prev| >= hi - 1 - lo by {
        RewriteStripsBack(s, lo, hi - 1);
      }
      assert StripCommas(mark) == [] by {
        if mark != [] {
          assert mark[1..] == [];
        }
      }
      assert Rewrite(s, lo, hi) == prev + mark + c;
      assert s[lo..hi] == s[lo..hi - 1] + c;
      calc {
        StripCommas(prev + mark + c);
        { StripCommasAppend(prev + mark, c); }
        StripCommas(prev + mark) + StripCommas(c);
        { StripCommasAppend(prev, mark); }
        StripCommas(s[lo..hi - 1]) + StripCommas(c);
        { StripCommasAppend(s[lo..hi - 1], c); }
        StripCommas(s[lo..hi]);
      }
    }
  }

  /**
   Regrouping a concatenation. Kept as a lemma of its own so that the proofs
   using it do not search for the equality in a large context.
   */
  lemma ConcatAssoc(a: string, b: string, c: string)
    ensures a + b + c == a + (b + c)
  {
  }

  /** Rewriting splits at any middle position. */
  lemma {:induction false} RewriteSplit(s: string, lo: nat, mid: nat, hi: nat)
    requires lo <= mid <= hi <= |s|
    ensures Rewrite(s, lo, hi) == Rewrite(s, lo, mid) + Rewrite(s, mid, hi)
    decreases hi - mid
  {
    if hi > mid {
      RewriteSplit(s, lo, mid, hi - 1);
    }
  }

  /** Two texts that agree, character and match, over a window rewrite it alike. */
  lemma {:induction false} RewriteCongruent(s: string, a: nat, t: string, b: nat, n: nat)
    requires a + n <= |s| && b + n <= |t|
    requires forall k :: a <= k < a + n ==> s[k] == t[k - a + b]
    requires forall k :: a <= k < a + n ==> (CommaBefore(s, k) <==> CommaBefore(t, k - a + b))
    ensures Rewrite(s, a, a + n) == Rewrite(t, b, b + n)
  {
    if n > 0 {
      RewriteCongruent(s, a, t, b, n - 1);
      var k := a + n - 1;
      assert s[k] == t[k - a + b];
      assert CommaBefore(s, k) <==> CommaBefore(t, k - a + b);
    }
  }

  /** No match in the window: the text is unchanged. */
  lemma {:induction false} RewriteNoMatch(s: string, lo: nat, hi: nat)
    requires lo <= hi <= |s|
    requires forall k :: lo <= k < hi ==> !CommaBefore(s, k)
    ensures Rewrite(s, lo, hi) == s[lo..hi]
    decreases hi - lo
  {
    if hi > lo {
      RewriteNoMatch(s, lo, hi - 1);
      assert s[lo..hi] == s[lo..hi - 1] + [s[hi - 1]];
    }
  }

  /** A string of decimal digits. */
  predicate IsDigits(s: string) { forall i :: 0 <= i < |s| ==> IsDigit(s[i]) }

  /**
   Reference grouping of a digit string: the last three digits form a group,
   preceded by a comma and the grouping of the rest.
   */
  function Grouped(digits: string): string
    decreases |digits|
  {
    if |digits| <= 3 then digits
    else Grouped(digits[..|digits| - 3]) + "," + digits[|digits| - 3..]
  }

  /**
   The layout of a grouped number read from the right: every fourth character
   is a comma and all others are digits, and the length is not a multiple of
   four (the leftmost group is not empty).
   */
  predicate CommaLayout(r: string) {
    |r| % 4 != 0
    && forall i :: 0 <= i < |r| ==> if (|r| - i) % 4 == 0 then r[i] == ',' else IsDigit(r[i])
  }

  lemma {:induction false} GroupedLayout(digits: string)
    requires IsDigits(digits) && |digits| > 0
    ensures CommaLayout(Grouped(digits))
    decreases |digits|
  {
    var n := |digits|;
    if n <= 3 {
      assert Grouped(digits) == digits;
      ShortGroupLayout(digits);
    } else {
      var head := digits[..n - 3];
      assert Grouped(digits) == Grouped(head) + "," + digits[n - 3..];
      GroupedLayout(head);
      LayoutExtend(Grouped(head), digits[n - 3..]);
    }
  }

  /** One to three digits alone are a well-formed grouping. */
  lemma ShortGroupLayout(digits: string)
    requires IsDigits(digits) && 0 < |digits| <= 3
    ensures CommaLayout(digits)
  {
    var n := |digits|;
    forall i | 0 <= i < n
      ensures if (n - i) % 4 == 0 then digits[i] == ',' else IsDigit(digits[i])
    {
      assert 0 < n - i < 4;
    }
  }

  /** Appending a comma and a group of three digits keeps the layout. */
  lemma LayoutExtend(g: string, tail: string)
    requires CommaLayout(g) && IsDigits(tail) && |tail| == 3
    ensures CommaLayout(g + "," + tail)
  {
    var r := g + "," + tail;
    assert |r| == |g| + 4;
    forall i | 0 <= i < |r|
      ensures if (|r| - i) % 4 == 0 then r[i] == ',' else IsDigit(r[i])
    {
      if i < |g| {
        assert r[i] == g[i];
        assert (|g| - i + 4) % 4 == (|g| - i) % 4;
      } else if i == |g| {
        assert r[i] == ',';
      } else {
        assert r[i] == tail[i - |g| - 1];
        assert 0 < |r| - i < 4;
      }
    }
    assert (|g| + 4) % 4 == |g| % 4;
  }

  lemma {:induction false} NoCommasStrip(s: string)
    requires IsDigits(s)
    ensures StripCommas(s) == s
  {
    if s != [] {
      NoCommasStrip(s[1..]);
    }
  }

  lemma {:induction false} DigitRunOfDigits(s: string, p: nat)
    requires p <= |s|
    requires forall k :: p <= k < |s| ==> IsDigit(s[k])
    ensures DigitRun(s, p) == |s| - p
    decreases |s| - p
  {
    if p < |s| {
      DigitRunOfDigits(s, p + 1);
    }
  }

  /** In a digit string the pattern matches before every digit followed by a multiple of three digits. */
  lemma CommaBeforeInDigits(s: string, p: nat)
    requires IsDigits(s) && p < |s|
    ensures CommaBefore(s, p) <==> 0 < p && (|s| - p) % 3 == 0
  {
    DigitRunOfDigits(s, p);
  }

  /** On digit strings, the regular-expression replacement is the reference grouping. */
  lemma {:induction false} FormatDigitsIsGrouped(digits: string)
    requires IsDigits(digits)
    ensures FormatNumberWithCommas(digits) == Grouped(digits)
    decreases |digits|
  {
    var n := |digits|;
    if n <= 3 {
      ShortDigitsUnchanged(digits);
    } else {
      var head := digits[..n - 3];
      assert IsDigits(head);
      assert Rewrite(head, 0, n - 3) == Grouped(head) by {
        FormatDigitsIsGrouped(head);
      }
      assert Rewrite(digits, 0, n - 3) == Rewrite(head, 0, n - 3) by {
        DigitsPrefixRewrite(digits, n - 3);
      }
      assert Rewrite(digits, n - 3, n) == "," + digits[n - 3..] by {
        LastGroupRewrite(digits);
      }
      RewriteSplit(digits, 0, n - 3, n);
      assert Grouped(digits) == Grouped(head) + "," + digits[n - 3..];
      ConcatAssoc(Grouped(head), ",", digits[n - 3..]);
    }
  }

  /** Three digits or fewer get no comma. */
  lemma ShortDigitsUnchanged(digits: string)
    requires IsDigits(digits) && |digits| <= 3
    ensures Rewrite(digits, 0, |digits|) == digits
  {
    forall k | 0 <= k < |digits| ensures !CommaBefore(digits, k) {
      CommaBeforeInDigits(digits, k);
    }
    RewriteNoMatch(digits, 0, |digits|);
    assert digits[0..|digits|] == digits;
  }

  /** A digit string and its prefix have the same commas when their lengths agree modulo three. */
  lemma DigitsPrefixRewrite(digits: string, m: nat)
    requires IsDigits(digits) && m <= |digits| && (|digits| - m) % 3 == 0
    ensures Rewrite(digits, 0, m) == Rewrite(digits[..m], 0, m)
  {
    DigitsPrefixRewriteUpTo(digits, m, m);
  }

  lemma {:induction false} DigitsPrefixRewriteUpTo(digits: string, m: nat, q: nat)
    requires IsDigits(digits) && q <= m <= |digits| && (|digits| - m) % 3 == 0
    ensures Rewrite(digits, 0, q) == Rewrite(digits[..m], 0, q)
  {
    if q > 0 {
      DigitsPrefixRewriteUpTo(digits, m, q - 1);
      PrefixCommaAgrees(digits, m, q - 1);
    }
  }

  lemma PrefixCommaAgrees(digits: string, m: nat, k: nat)
    requires IsDigits(digits) && m <= |digits| && (|digits| - m) % 3 == 0 && k < m
    ensures digits[k] == digits[..m][k]
    ensures CommaBefore(digits, k) <==> CommaBefore(digits[..m], k)
  {
    var head := digits[..m];
    assert CommaBefore(digits, k) <==> 0 < k && (|digits| - k) % 3 == 0 by {
      CommaBeforeInDigits(digits, k);
    }
    assert CommaBefore(head, k) <==> 0 < k && (m - k) % 3 == 0 by {
      assert IsDigits(head);
      CommaBeforeInDigits(head, k);
    }
  }

  /** The last three digits of a digit string longer than three are preceded by one comma. */
  lemma LastGroupRewrite(digits: string)
    requires IsDigits(digits) && |digits| > 3
    ensures Rewrite(digits, |digits| - 3, |digits|) == "," + digits[|digits| - 3..]
  {
    var n := |digits|;
    CommaBeforeInDigits(digits, n - 3);
    CommaBeforeInDigits(digits, n - 2);
    CommaBeforeInDigits(digits, n - 1);
    GroupRewrite(digits, n - 3);
  }

  /** A comma before a three-character window and none inside it. */
  lemma GroupRewrite(s: string, i: nat)
    requires i + 3 == |s|
    requires CommaBefore(s, i) && !CommaBefore(s, i + 1) && !CommaBefore(s, i + 2)
    ensures Rewrite(s, i, i + 3) == "," + s[i..]
  {
    var x, y, z := s[i], s[i + 1], s[i + 2];
    assert Rewrite(s, i, i + 1) == [',', x] by {
      assert Rewrite(s, i, i + 1) == "" + "," + [x];
    }
    assert Rewrite(s, i, i + 2) == [',', x, y] by {
      assert Rewrite(s, i, i + 2) == [',', x] + "" + [y];
    }
    assert Rewrite(s, i, i + 3) == [',', x, y] + "" + [z];
    assert s[i..] == [x, y, z];
  }

  /**
   What the layout means group by group: no comma at either end, every comma
   followed by exactly three digits and then a comma or the end, and a first
   group of one to three digits.
   */
  lemma LayoutGroups(r: string)
    requires CommaLayout(r) && |r| > 0
    ensures r[0] != ',' && r[|r| - 1] != ','
    ensures forall i :: 0 <= i < |r| && r[i] == ',' ==>
              i + 3 < |r| && IsDigit(r[i + 1]) && IsDigit(r[i + 2]) && IsDigit(r[i + 3])
              && (i + 4 == |r| || r[i + 4] == ',')
    ensures |r| <= 3 ==> ',' !in r
    ensures |r| > 3 ==> ',' in r[1..4]
  {
    var n := |r|;
    forall i | 0 <= i < n && r[i] == ','
      ensures i + 3 < n && IsDigit(r[i + 1]) && IsDigit(r[i + 2]) && IsDigit(r[i + 3])
      ensures i + 4 == n || r[i + 4] == ','
    {
      CommaFollowers(r, i);
    }
    assert (n - (n - 1)) % 4 == 1;
    if n <= 3 {
      forall i | 0 <= i < n ensures r[i] != ',' {
        assert 0 < n - i < 4;
      }
    } else {
      var f := n % 4;
      assert (n - f) % 4 == 0;
      assert r[1..4][f - 1] == r[f] == ',';
    }
  }

  lemma CommaFollowers(r: string, i: nat)
    requires CommaLayout(r) && i < |r| && r[i] == ','
    ensures i + 3 < |r| && IsDigit(r[i + 1]) && IsDigit(r[i + 2]) && IsDigit(r[i + 3])
    ensures i + 4 == |r| || r[i + 4] == ','
  {
    var n := |r|;
    assert (n - i) % 4 == 0;
    assert n - i >= 4;
    assert (n - (i + 1)) % 4 == 3;
    assert (n - (i + 2)) % 4 == 2;
    assert (n - (i + 3)) % 4 == 1;
    if i + 4 < n {
      assert (n - (i + 4)) % 4 == 0;
    }
  }

  /**
   For the decimal text of a non-negative integer: removing the commas gives
   the text back; there is no leading or trailing comma; every comma is
   followed by exactly three digits and then a comma or the end; and the
   first group has one to three digits.
   */
  lemma FormatNumberWithCommasGroups(digits: string)
    requires IsDigits(digits) && |digits| > 0
    ensures var r := FormatNumberWithCommas(digits);
            && StripCommas(r) == digits
            && r[0] != ',' && r[|r| - 1] != ','
            && (forall i :: 0 <= i < |r| && r[i] == ',' ==>
                  i + 3 < |r| && IsDigit(r[i + 1]) && IsDigit(r[i + 2]) && IsDigit(r[i + 3])
                  && (i + 4 == |r| || r[i + 4] == ','))
            && (|r| <= 3 ==> r == digits)
            && (|r| > 3 ==> ',' in r[1..4])
  {
    FormatDigitsIsGrouped(digits);
    GroupedLayout(digits);
    LayoutGroups(Grouped(digits));
    FormatOnlyInsertsCommas(digits);
    NoCommasStrip(digits);
    if |Grouped(digits)| <= 3 {
      assert |digits| <= 3;
    }
  }

  // A number with a fractional part, such as a wallet balance rounded to four
  // decimals, has the text `<digits>.<digits>`. The pattern also matches inside
  // the fraction, so a fraction of four or more digits is grouped too.

  /** The run of digits starting at `p` ends at the first non-digit `e`. */
  lemma {:induction false} DigitRunEndsAt(s: string, p: nat, e: nat)
    requires p <= e <= |s|
    requires forall k :: p <= k < e ==> IsDigit(s[k])
    requires e < |s| ==> !IsDigit(s[e])
    ensures DigitRun(s, p) == e - p
    decreases e - p
  {
    if p < e {
      DigitRunEndsAt(s, p + 1, e);
    }
  }

  /** As written: the integer part and the fraction are each grouped. */
  lemma FractionIsGrouped(intDigits: string, fracDigits: string)
    requires IsDigits(intDigits) && IsDigits(fracDigits)
    ensures FormatNumberWithCommas(intDigits + "." + fracDigits) == Grouped(intDigits) + "." + Grouped(fracDigits)
  {
    var s := intDigits + "." + fracDigits;
    var d := |intDigits|;
    assert s[..d] == intDigits && s[d] == '.' && s[d + 1..] == fracDigits;
    assert Rewrite(s, 0, d) == Grouped(intDigits) by {
      LeadingRunRewrite(s, d);
      FormatDigitsIsGrouped(intDigits);
    }
    assert Rewrite(s, d + 1, |s|) == Grouped(fracDigits) by {
      TrailingRunRewrite(s, d + 1);
      FormatDigitsIsGrouped(fracDigits);
    }
    assert Rewrite(s, d, d + 1) == "." by {
      DigitRunEndsAt(s, d, d);
    }
    RewriteSplit(s, 0, d, |s|);
    RewriteSplit(s, d, d + 1, |s|);
    ConcatAssoc(Grouped(intDigits), ".", Grouped(fracDigits));
  }

  /** The digits before the first non-digit are rewritten as if they stood alone. */
  lemma LeadingRunRewrite(s: string, d: nat)
    requires d <= |s| && IsDigits(s[..d])
    requires d < |s| ==> !IsDigit(s[d])
    ensures Rewrite(s, 0, d) == Rewrite(s[..d], 0, d)
  {
    DigitWindowRewrite(s, 0, s[..d], 0, d);
  }

  /** The digits after a non-word character are rewritten as if they stood alone. */
  lemma TrailingRunRewrite(s: string, e: nat)
    requires 0 < e <= |s| && !IsWordChar(s[e - 1]) && IsDigits(s[e..])
    ensures Rewrite(s, e, |s|) == Rewrite(s[e..], 0, |s| - e)
  {
    assert s[e..e + (|s| - e)] == s[e..][0..|s| - e];
    DigitWindowRewrite(s, e, s[e..], 0, |s| - e);
  }

  /**
   A maximal run of digits, preceded alike in two texts, gets the same
   commas in both.
   */
  lemma DigitWindowRewrite(s: string, a: nat, t: string, b: nat, n: nat)
    requires a + n <= |s| && b + n <= |t|
    requires s[a..a + n] == t[b..b + n] && IsDigits(s[a..a + n])
    requires WordAt(s, a - 1) == WordAt(t, b - 1)
    requires a + n < |s| ==> !IsDigit(s[a + n])
    requires b + n < |t| ==> !IsDigit(t[b + n])
    ensures Rewrite(s, a, a + n) == Rewrite(t, b, b + n)
  {
    forall k | a <= k < a + n
      ensures s[k] == t[k - a + b]
      ensures CommaBefore(s, k) <==> CommaBefore(t, k - a + b)
    {
      DigitWindowAgrees(s, a, t, b, n, k);
    }
    RewriteCongruent(s, a, t, b, n);
  }

  lemma DigitWindowAgrees(s: string, a: nat, t: string, b: nat, n: nat, k: nat)
    requires a + n <= |s| && b + n <= |t|
    requires s[a..a + n] == t[b..b + n] && IsDigits(s[a..a + n])
    requires WordAt(s, a - 1) == WordAt(t, b - 1)
    requires a + n < |s| ==> !IsDigit(s[a + n])
    requires b + n < |t| ==> !IsDigit(t[b + n])
    requires a <= k < a + n
    ensures s[k] == t[k - a + b]
    ensures CommaBefore(s, k) <==> CommaBefore(t, k - a + b)
  {
    var j := k - a + b;
    var w := s[a..a + n];
    assert s[k] == w[k - a];
    assert t[j] == t[b..b + n][k - a];
    WindowIsDigits(s, a, n);
    WindowIsDigits(t, b, n);
    DigitRunEndsAt(s, k, a + n);
    DigitRunEndsAt(t, j, b + n);
    if k > a {
      assert s[k - 1] == w[k - 1 - a];
      assert t[j - 1] == t[b..b + n][k - 1 - a];
    }
  }

  lemma WindowIsDigits(s: string, a: nat, n: nat)
    requires a + n <= |s| && IsDigits(s[a..a + n])
    ensures forall i :: a <= i < a + n ==> IsDigit(s[i])
  {
    forall i | a <= i < a + n ensures IsDigit(s[i]) {
      assert s[i] == s[a..a + n][i - a];
    }
  }

  predicate IsPoint(c: char) { c == '.' }

  /**
   Corrected `formatNumberWithCommas`: only the digits before the decimal
   point are grouped; the point and the fraction are kept as they are.
   */
  function FormatDecimalWithCommas(text: string): string
  {
    match Js.FindIndex(text, IsPoint)
    case None => FormatNumberWithCommas(text)
    case Some(i) => FormatNumberWithCommas(text[..i]) + text[i..]
  }

  /**
   The corrected formatter only inserts commas, and none from the first
   decimal point on: that part of the text ends the result unchanged.
   */
  lemma DecimalOnlyInsertsCommas(text: string)
    ensures StripCommas(FormatDecimalWithCommas(text)) == StripCommas(text)
    ensures var point := Js.FindIndex(text, IsPoint);
            var r := FormatDecimalWithCommas(text);
            point.Some? ==> |text| - point.value <= |r| && r[|r| - (|text| - point.value)..] == text[point.value..]
  {
    match Js.FindIndex(text, IsPoint)
    case None =>
      FormatOnlyInsertsCommas(text);
    case Some(i) =>
      var head := FormatNumberWithCommas(text[..i]);
      FormatOnlyInsertsCommas(text[..i]);
      StripCommasAppend(head, text[i..]);
      StripCommasAppend(text[..i], text[i..]);
      assert text[..i] + text[i..] == text;
      var r := head + text[i..];
      assert r[|r| - (|text| - i)..] == text[i..];
  }

  /** The decimal point of `<digits>.<digits>` is found right after the integer digits. */
  lemma FindPoint(intDigits: string, fracDigits: string)
    requires IsDigits(intDigits)
    ensures Js.FindIndex(intDigits, IsPoint) == None
    ensures Js.FindIndex(intDigits + "." + fracDigits, IsPoint) == Some(|intDigits|)
  {
    var s := intDigits + "." + fracDigits;
    assert IsPoint(s[|intDigits|]);
    forall k | 0 <= k < |intDigits| ensures !IsPoint(s[k]) {
      assert s[k] == intDigits[k];
    }
  }

  /** The corrected formatter groups the integer part and leaves the fraction alone. */
  lemma DecimalFormatGroupsIntegerPart(intDigits: string, fracDigits: string)
    requires IsDigits(intDigits) && IsDigits(fracDigits)
    ensures FormatDecimalWithCommas(intDigits) == Grouped(intDigits)
    ensures FormatDecimalWithCommas(intDigits + "." + fracDigits) == Grouped(intDigits) + "." + fracDigits
  {
    FindPoint(intDigits, fracDigits);
    DecimalWithoutPoint(intDigits);
    DecimalWithPoint(intDigits, fracDigits);
  }

  lemma DecimalWithPoint(intDigits: string, fracDigits: string)
    requires IsDigits(intDigits)
    requires Js.FindIndex(intDigits + "." + fracDigits, IsPoint) == Some(|intDigits|)
    ensures FormatDecimalWithCommas(intDigits + "." + fracDigits) == Grouped(intDigits) + "." + fracDigits
  {
    var s := intDigits + "." + fracDigits;
    var d := |intDigits|;
    assert s[..d] == intDigits;
    assert s[d..] == "." + fracDigits;
    assert FormatDecimalWithCommas(s) == FormatNumberWithCommas(intDigits) + ("." + fracDigits) by {
      DecimalSplitsAtPoint(s, d);
    }
    FormatDigitsIsGrouped(intDigits);
    ConcatAssoc(Grouped(intDigits), ".", fracDigits);
  }

  lemma DecimalWithoutPoint(digits: string)
    requires IsDigits(digits) && Js.FindIndex(digits, IsPoint) == None
    ensures FormatDecimalWithCommas(digits) == Grouped(digits)
  {
    FormatDigitsIsGrouped(digits);
  }

  lemma DecimalSplitsAtPoint(text: string, i: nat)
    requires Js.FindIndex(text, IsPoint) == Some(i)
    ensures FormatDecimalWithCommas(text) == FormatNumberWithCommas(text[..i]) + text[i..]
  {
  }

  /**
   As written, a number with four integer and four fraction digits, such as
   1234.5678, comes out as "1,234.5,678": a comma lands inside the fraction.
   */
  lemma FractionGroupingExample(intDigits: string, fracDigits: string)
    requires IsDigits(intDigits) && IsDigits(fracDigits) && |intDigits| == 4 && |fracDigits| == 4
    ensures FormatNumberWithCommas(intDigits + "." + fracDigits)
            == intDigits[..1] + "," + intDigits[1..] + "." + fracDigits[..1] + "," + fracDigits[1..]
  {
    FractionIsGrouped(intDigits, fracDigits);
    FourDigitsGrouped(intDigits);
    FourDigitsGrouped(fracDigits);
  }

  /** Corrected, the same number comes out as "1,234.5678". */
  lemma CorrectedFractionExample(intDigits: string, fracDigits: string)
    requires IsDigits(intDigits) && IsDigits(fracDigits) && |intDigits| == 4 && |fracDigits| == 4
    ensures FormatDecimalWithCommas(intDigits + "." + fracDigits)
            == intDigits[..1] + "," + intDigits[1..] + "." + fracDigits
  {
    DecimalFormatGroupsIntegerPart(intDigits, fracDigits);
    FourDigitsGrouped(intDigits);
  }

  lemma FourDigitsGrouped(digits: string)
    requires |digits| == 4
    ensures Grouped(digits) == digits[..1] + "," + digits[1..]
  {
  }
}
