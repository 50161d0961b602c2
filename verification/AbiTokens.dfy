/** Deriving the tokens a raw transaction moves from its calldata (transaction-signer.js), against calldata
    written by the Contract ABI Specification ("Formal Specification of the Encoding"). */
module AbiTokens {
  import opened Tables
  import Digits

  const TRANSFER := "0xa9059cbb"
  const APPROVE := "0x095ea7b3"
  const TRANSFER_FROM := "0x23b872dd"
  const BALANCE_OF := "0x70a08231"

  datatype Token = Token(address: string, amount: nat, isNative: bool)

  /** A parsed transaction; an absent recipient or empty data is "". */
  datatype ParsedTx = ParsedTx(to: string, value: nat, data: string, chainId: nat)

  /** Failed: the derivation threw. */
  datatype Derived = Tokens(tokens: seq<Token>) | Failed

  // ---- reading text ----------------------------------------------------------------------

  /** JavaScript's substring: bounds past the end are pulled back to it. */
  function Substring(s: string, from: nat, to: nat): string
    requires from <= to
  {
    s[if from <= |s| then from else |s|..if to <= |s| then to else |s|]
  }

  function Lower(c: char): char {
    if 'A' <= c <= 'Z' then (c as int + 32) as char else c
  }

  function ToLowerCase(s: string): string {
    seq(|s|, i requires 0 <= i < |s| => Lower(s[i]))
  }

  function HexDigit(c: char): Option<nat> {
    if '0' <= c <= '9' then Some(c as int - '0' as int)
    else if 'a' <= c <= 'f' then Some(c as int - 'a' as int + 10)
    else if 'A' <= c <= 'F' then Some(c as int - 'A' as int + 10)
    else None
  }

  function HexDigits(s: string): Option<seq<nat>> {
    if s == "" then Some([])
    else
      var front, last := HexDigits(s[..|s| - 1]), HexDigit(s[|s| - 1]);
      if front.Some? && last.Some? then Some(front.value + [last.value]) else None
  }

  /** BigInt('0x' + text): it throws without digits, or with anything that is not one. */
  function BigIntOfHex(s: string): Option<nat> {
    if s == "" || HexDigits(s).None? then None else Some(Digits.Value(16, HexDigits(s).value))
  }

  function Decimal(n: nat): string {
    if n < 10 then [(n + '0' as int) as char] else Decimal(n / 10) + [(n % 10 + '0' as int) as char]
  }

  // ---- the derivation --------------------------------------------------------------------

  predicate ValidAddress(to: string) {
    to != "" && to != "0x" && to != "0x0000000000000000000000000000000000000000" && |to| == 42
  }

  predicate HasData(data: string) {
    data != "" && data != "0x" && |data| > 2
  }

  function Native(tx: ParsedTx): seq<Token> {
    if tx.value > 0 then [Token(Decimal(tx.chainId) + "_native", tx.value, true)] else []
  }

  function Unknown(tx: ParsedTx): Token {
    Token(Decimal(tx.chainId) + "_unknown", 0, false)
  }

  /** What the call moves: its amount, or None when reading it throws or the selector is not one known. */
  function CallAmount(data: string): Option<nat> {
    var selector := ToLowerCase(Substring(data, 0, 10));
    if selector == TRANSFER || selector == APPROVE then BigIntOfHex(Substring(data, 74, 138))
    else if selector == TRANSFER_FROM then BigIntOfHex(Substring(data, 114, 178))
    else if selector == BALANCE_OF then Some(0)
    else None
  }

  function Derive(tx: ParsedTx): Derived {
    if !HasData(tx.data) then Tokens(if tx.value > 0 then Native(tx) else [Unknown(tx)])
    else if !ValidAddress(tx.to) then Tokens(Native(tx) + [Unknown(tx)])
    else match CallAmount(tx.data)
      case None => Failed
      case Some(amount) => Tokens(Native(tx) + [Token(tx.to, amount, false)])
  }

  method DeriveTokenAddressFromParsedTx(tx: ParsedTx) returns (derived: Derived)
    ensures derived == Derive(tx)
  {
    var tokens: seq<Token> := [];
    var hasData := HasData(tx.data);
    var isValidAddress := ValidAddress(tx.to);
    if tx.value > 0 {
      tokens := tokens + [Token(Decimal(tx.chainId) + "_native", tx.value, true)];
    }
    if hasData {
      if !isValidAddress {
        tokens := tokens + [Token(Decimal(tx.chainId) + "_unknown", 0, false)];
      } else {
        var functionSelector := ToLowerCase(Substring(tx.data, 0, 10));
        var amount := None;
        if functionSelector == TRANSFER {
          amount := BigIntOfHex(Substring(tx.data, 74, 138));
        } else if functionSelector == APPROVE {
          amount := BigIntOfHex(Substring(tx.data, 74, 138));
        } else if functionSelector == TRANSFER_FROM {
          amount := BigIntOfHex(Substring(tx.data, 114, 178));
        } else if functionSelector == BALANCE_OF {
          amount := Some(0);
        }
        if amount.None? {
          return Failed;
        }
        tokens := tokens + [Token(tx.to, amount.value, false)];
      }
    }
    if |tokens| == 0 {
      tokens := tokens + [Token(Decimal(tx.chainId) + "_unknown", 0, false)];
    }
    return Tokens(tokens);
  }

  /** There are always one or two entries; the native one is there exactly when value moves, and first. */
  lemma OneOrTwoTokens(tx: ParsedTx)
    requires Derive(tx).Tokens?
    ensures var tokens := Derive(tx).tokens;
      && 1 <= |tokens| <= 2
      && (tokens[0].isNative <==> tx.value > 0)
      && (|tokens| == 2 ==> !tokens[1].isNative && tx.value > 0 && HasData(tx.data))
      && (tx.value > 0 ==> tokens[0].amount == tx.value)
  {
  }

  // ---- when the derivation fails ---------------------------------------------------------

  predicate IsHex(c: char) {
    '0' <= c <= '9' || 'a' <= c <= 'f' || 'A' <= c <= 'F'
  }

  lemma {:induction false} HexDigitsIff(s: string)
    ensures HexDigits(s).Some? <==> forall i :: 0 <= i < |s| ==> IsHex(s[i])
  {
    if s != "" {
      HexDigitsIff(s[..|s| - 1]);
    }
  }

  /** Capital hexadecimal digits read as small ones. */
  lemma {:induction false} HexIgnoresCase(s: string)
    ensures BigIntOfHex(ToLowerCase(s)) == BigIntOfHex(s)
    ensures HexDigits(ToLowerCase(s)) == HexDigits(s)
  {
    if s != "" {
      HexIgnoresCase(s[..|s| - 1]);
      assert ToLowerCase(s)[..|s| - 1] == ToLowerCase(s[..|s| - 1]);
    }
  }

  /** Some hexadecimal text, and nothing else, stands at this offset and in the 64 places from there. */
  predicate HexAt(data: string, from: nat) {
    from < |data| && forall i :: from <= i < from + 64 && i < |data| ==> IsHex(data[i])
  }

  lemma AmountIsReadIff(data: string, from: nat)
    ensures BigIntOfHex(Substring(data, from, from + 64)).Some? <==> HexAt(data, from)
  {
    var text := Substring(data, from, from + 64);
    HexDigitsIff(text);
    if from < |data| {
      assert forall i :: 0 <= i < |text| ==> text[i] == data[from + i];
      forall i | from <= i < from + 64 && i < |data| ensures text[i - from] == data[i] {
      }
    }
  }

  /** The calldata starts with this selector, in small or capital letters. */
  predicate Calls(data: string, selector: string) {
    |selector| <= |data| && forall i :: 0 <= i < |selector| ==>
      data[i] == selector[i] || ('A' <= data[i] <= 'Z' && data[i] as int + 32 == selector[i] as int)
  }

  lemma SelectorIs(data: string, selector: string)
    requires |selector| == 10 && forall i :: 0 <= i < 10 ==> !('A' <= selector[i] <= 'Z')
    ensures ToLowerCase(Substring(data, 0, 10)) == selector <==> Calls(data, selector)
  {
    var text := Substring(data, 0, 10);
    if Calls(data, selector) {
      assert forall i :: 0 <= i < 10 ==> Lower(text[i]) == selector[i];
    }
    if ToLowerCase(text) == selector {
      assert |text| == 10 && forall i :: 0 <= i < 10 ==> Lower(data[i]) == ToLowerCase(text)[i] == selector[i];
    }
  }

  /** Calldata sent to an address that can be a contract's. */
  predicate CallsContract(tx: ParsedTx) {
    |tx.data| > 2 && |tx.to| == 42 && tx.to != "0x0000000000000000000000000000000000000000"
  }

  /** The derivation throws exactly for a call of a contract that is none of transfer, approve, transferFrom
      and balanceOf, or whose amount is not there or not hexadecimal. */
  lemma FailsIff(tx: ParsedTx)
    ensures Derive(tx).Failed? <==>
      && CallsContract(tx)
      && !((Calls(tx.data, "0xa9059cbb") || Calls(tx.data, "0x095ea7b3")) && HexAt(tx.data, 74))
      && !(Calls(tx.data, "0x23b872dd") && HexAt(tx.data, 114))
      && !Calls(tx.data, "0x70a08231")
  {
    hide Calls, HexAt, BigIntOfHex, Substring, ToLowerCase;
    SelectorIs(tx.data, TRANSFER);
    SelectorIs(tx.data, APPROVE);
    SelectorIs(tx.data, TRANSFER_FROM);
    SelectorIs(tx.data, BALANCE_OF);
    AmountIsReadIff(tx.data, 74);
    AmountIsReadIff(tx.data, 114);
  }

  /** Otherwise it gives the native token when value moves, then the contract called with its amount, none
      for balanceOf, or an unknown token when data goes elsewhere or nothing at all moves. */
  lemma DerivedTokens(tx: ParsedTx)
    requires Derive(tx).Tokens?
    ensures var tokens := Derive(tx).tokens;
      var native := if tx.value > 0 then [Token(Decimal(tx.chainId) + "_native", tx.value, true)] else [];
      var unknown := Token(Decimal(tx.chainId) + "_unknown", 0, false);
      if CallsContract(tx) then
        && native < tokens && |tokens| == |native| + 1
        && tokens[|native|].address == tx.to && !tokens[|native|].isNative
        && (Calls(tx.data, "0x70a08231") ==> tokens[|native|].amount == 0)
      else if |tx.data| > 2 || tx.value == 0 then tokens == native + [unknown]
      else tokens == native
  {
    hide Calls, BigIntOfHex, ToLowerCase;
    SelectorIs(tx.data, BALANCE_OF);
  }

  function Number(s: string): int {
    if s == "" then 0 else Number(s[..|s| - 1]) * 10 + (s[|s| - 1] as int - '0' as int)
  }

  /** The chain id in a token's name is written in decimal. */
  lemma {:induction false} DecimalIsTheNumber(n: nat)
    ensures Number(Decimal(n)) == n && Decimal(n) != ""
    ensures forall i :: 0 <= i < |Decimal(n)| ==> '0' <= Decimal(n)[i] <= '9'
    ensures n > 0 ==> Decimal(n)[0] != '0'
  {
    if n >= 10 {
      DecimalIsTheNumber(n / 10);
      assert Decimal(n)[..|Decimal(n)| - 1] == Decimal(n / 10);
    } else {
      assert Decimal(n)[..0] == "";
    }
  }

  // ---- the encoding ----------------------------------------------------------------------

  function HexText(digits: seq<nat>): string
    requires Digits.DigitsOf(16, digits)
  {
    seq(|digits|, i requires 0 <= i < |digits| =>
      assert digits[i] in digits;
      if digits[i] < 10 then (digits[i] + '0' as int) as char else (digits[i] - 10 + 'a' as int) as char)
  }

  /** A 32-byte word in hexadecimal. */
  function Word(n: nat): string
    requires n < Digits.Pow(16, 64)
  {
    Digits.WrittenReadsBack(16, n, 64);
    HexText(Digits.Written(16, n, 64))
  }

  lemma {:induction false} HexTextReadsBack(digits: seq<nat>)
    requires Digits.DigitsOf(16, digits)
    ensures HexDigits(HexText(digits)) == Some(digits)
  {
    if digits != [] {
      var front, last := digits[..|digits| - 1], digits[|digits| - 1];
      assert last in digits && forall d :: d in front ==> d in digits;
      HexTextReadsBack(front);
      assert HexText(digits)[..|digits| - 1] == HexText(front);
      assert front + [last] == digits;
    }
  }

  /** A call of a selector with two or three argument words; more data may follow. */
  function Calldata(selector: string, a: nat, b: nat, rest: string): string
    requires a < Digits.Pow(16, 64) && b < Digits.Pow(16, 64)
  {
    selector + Word(a) + Word(b) + rest
  }

  lemma SelectorReadsBack(selector: string, rest: string)
    requires selector in {TRANSFER, APPROVE, TRANSFER_FROM, BALANCE_OF}
    ensures ToLowerCase(Substring(selector + rest, 0, 10)) == selector
  {
    assert (selector + rest)[0..10] == selector;
    assert forall i :: 0 <= i < 10 ==> Lower(selector[i]) == selector[i];
  }

  lemma WordLength(n: nat)
    requires n < Digits.Pow(16, 64)
    ensures |Word(n)| == 64 && BigIntOfHex(Word(n)) == Some(n)
  {
    Digits.WrittenReadsBack(16, n, 64);
    HexTextReadsBack(Digits.Written(16, n, 64));
  }

  /** For every amount of 256 bits, the derivation undoes the encoding of transfer and approve: it gives the
      contract called and the amount, after the native entry when value moves. */
  lemma TransferAndApproveReadBack(tx: ParsedTx, selector: string, account: nat, amount: nat, rest: string)
    requires selector == TRANSFER || selector == APPROVE
    requires account < Digits.Pow(16, 64) && amount < Digits.Pow(16, 64)
    requires ValidAddress(tx.to) && tx.data == Calldata(selector, account, amount, rest)
    ensures Derive(tx) == Tokens(Native(tx) + [Token(tx.to, amount, false)])
  {
    hide Word, BigIntOfHex, ToLowerCase;
    WordLength(account);
    WordLength(amount);
    assert tx.data == selector + (Word(account) + Word(amount) + rest);
    SelectorReadsBack(selector, Word(account) + Word(amount) + rest);
    assert tx.data[74..138] == Word(amount);
  }

  // ---- transferFrom ----------------------------------------------------------------------

  const TWO_32 := 0x1_0000_0000
  const TWO_64 := TWO_32 * TWO_32
  const TWO_96 := TWO_64 * TWO_32
  const TWO_160 := TWO_96 * TWO_64

  /** The high and low digits of a written number are its quotient and remainder. */
  lemma WrittenSplits(n: nat, high: nat, low: nat)
    requires n < Digits.Pow(16, high + low)
    ensures var digits := Digits.Written(16, n, high + low);
      && |digits| == high + low
      && Digits.DigitsOf(16, digits)
      && Digits.Pow(16, low) > 0
      && Digits.Value(16, digits[..high]) == n / Digits.Pow(16, low)
      && Digits.Value(16, digits[high..]) == n % Digits.Pow(16, low)
  {
    hide Digits.Value, Digits.Pow, Digits.Written;
    Digits.WrittenReadsBack(16, n, high + low);
    var digits := Digits.Written(16, n, high + low);
    var h, l := digits[..high], digits[high..];
    assert digits == h + l;
    assert forall d :: d in h ==> d in digits;
    assert forall d :: d in l ==> d in digits;
    Digits.ValueOfConcat(16, h, l);
    Digits.ValueFits(16, l);
    Digits.QuotientIsUnique(n, Digits.Pow(16, low), Digits.Value(16, h), Digits.Value(16, l));
  }

  lemma Powers()
    ensures Digits.Pow(16, 24) == TWO_96 && Digits.Pow(16, 40) == TWO_160 && Digits.Pow(16, 64) == TWO_96 * TWO_160
  {
    assert Digits.Pow(16, 2) == 256;
    Digits.PowerOfSum(16, 2, 2);
    Digits.PowerOfSum(16, 4, 4);
    Digits.PowerOfSum(16, 8, 8);
    Digits.PowerOfSum(16, 16, 8);
    Digits.PowerOfSum(16, 24, 16);
    Digits.PowerOfSum(16, 24, 40);
  }

  lemma HexTextSlice(digits: seq<nat>, from: nat, to: nat)
    requires Digits.DigitsOf(16, digits) && from <= to <= |digits|
    ensures Digits.DigitsOf(16, digits[from..to]) && HexText(digits)[from..to] == HexText(digits[from..to])
  {
    assert forall d :: d in digits[from..to] ==> d in digits;
  }

  /** What transferFrom is read as: the low 96 bits of the recipient, then the high 160 of the amount. */
  function TransferFromAmount(recipient: nat, amount: nat): nat {
    recipient % TWO_96 * TWO_160 + amount / TWO_96
  }

  /** The text sliced for the amount of a transferFrom straddles its second and third words. */
  lemma StraddlingWord(recipient: nat, amount: nat)
    requires recipient < Digits.Pow(16, 64) && amount < Digits.Pow(16, 64)
    ensures |Word(recipient)| == |Word(amount)| == 64
    ensures BigIntOfHex(Word(recipient)[40..] + Word(amount)[..40]) == Some(TransferFromAmount(recipient, amount))
  {
    hide BigIntOfHex, Digits.Written;
    Powers();
    WrittenSplits(recipient, 40, 24);
    WrittenSplits(amount, 40, 24);
    var r, a := Digits.Written(16, recipient, 64), Digits.Written(16, amount, 64);
    var low, high := r[40..64], a[0..40];
    HexTextSlice(r, 40, 64);
    HexTextSlice(a, 0, 40);
    StraddlingDigits(low, high);
    assert r[40..] == low && a[..40] == high;
    assert Word(recipient)[40..] == HexText(low) && Word(amount)[..40] == HexText(high);
  }

  lemma HexTextConcat(low: seq<nat>, high: seq<nat>)
    requires Digits.DigitsOf(16, low) && Digits.DigitsOf(16, high)
    ensures Digits.DigitsOf(16, low + high)
    ensures HexText(low + high) == HexText(low) + HexText(high)
  {
  }

  lemma StraddlingDigits(low: seq<nat>, high: seq<nat>)
    requires Digits.DigitsOf(16, low) && Digits.DigitsOf(16, high) && |high| == 40
    ensures BigIntOfHex(HexText(low) + HexText(high)) == Some(Digits.Value(16, low) * TWO_160 + Digits.Value(16, high))
  {
    hide HexText, HexDigits, Digits.Value, Digits.Pow, Digits.DigitsOf;
    HexTextConcat(low, high);
    HexTextReadsBack(low + high);
    HexTextLength(low, high);
    Digits.ValueOfConcat(16, low, high);
    Powers();
  }

  lemma HexTextLength(low: seq<nat>, high: seq<nat>)
    requires Digits.DigitsOf(16, low) && Digits.DigitsOf(16, high) && |high| > 0
    ensures HexText(low) + HexText(high) != ""
  {
    assert |HexText(high)| > 0;
  }

  /** transferFrom is not read by the ABI layout: what is derived mixes the recipient and the amount. */
  lemma TransferFromIsReadAcrossWords(tx: ParsedTx, sender: nat, recipient: nat, amount: nat, rest: string)
    requires sender < Digits.Pow(16, 64) && recipient < Digits.Pow(16, 64) && amount < Digits.Pow(16, 64)
    requires ValidAddress(tx.to) && tx.data == Calldata(TRANSFER_FROM, sender, recipient, Word(amount) + rest)
    ensures Derive(tx) == Tokens(Native(tx) + [Token(tx.to, TransferFromAmount(recipient, amount), false)])
  {
    hide Word, BigIntOfHex, ToLowerCase;
    WordLength(sender);
    StraddlingWord(recipient, amount);
    var tail := Word(sender) + Word(recipient) + (Word(amount) + rest);
    assert tx.data == TRANSFER_FROM + tail;
    SelectorReadsBack(TRANSFER_FROM, tail);
    assert tx.data[114..178] == Word(recipient)[40..] + Word(amount)[..40];
  }

  /** The amount derived for a transferFrom is the amount encoded if and only if that amount repeats the low
      96 bits t of the recipient in this way: t at bit 160, t at bit 64, and the high 64 bits of t below. */
  lemma TransferFromIsExactIff(recipient: nat, amount: nat)
    requires amount < TWO_96 * TWO_160
    ensures var t := recipient % TWO_96;
      TransferFromAmount(recipient, amount) == amount <==> amount == t * TWO_160 + t * TWO_64 + t / TWO_32
  {
    var t := recipient % TWO_96;
    FixedPoint(t, amount);
  }

  lemma FixedPoint(t: nat, amount: nat)
    requires amount < TWO_96 * TWO_160
    ensures t * TWO_160 + amount / TWO_96 == amount <==> amount == t * TWO_160 + t * TWO_64 + t / TWO_32
  {
    if t * TWO_160 + amount / TWO_96 == amount {
      FixedPointHasTheForm(t, amount);
    }
    if amount == t * TWO_160 + t * TWO_64 + t / TWO_32 {
      assert t * TWO_64 + t / TWO_32 == t / TWO_32 * TWO_96 + (t % TWO_32 * TWO_64 + t / TWO_32);
      assert amount / TWO_96 == t * TWO_64 + t / TWO_32;
    }
  }

  lemma FixedPointHasTheForm(t: nat, amount: nat)
    requires amount < TWO_96 * TWO_160 && t * TWO_160 + amount / TWO_96 == amount
    ensures amount == t * TWO_160 + t * TWO_64 + t / TWO_32
  {
    var b := amount / TWO_96;
    var c := b / TWO_96;
    assert c < TWO_64;
    assert b == t * TWO_64 + c;
    assert c == t / TWO_32;
  }
}
