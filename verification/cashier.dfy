/** The ticket desk: a sale checks the form, prints a bracelet code from the clock and queues the
    visitor in the zustand queue store. */
module Cashier {
  import opened Wrappers
  import opened Numerals
  import Text
  import Catalog
  import QueueStore

  /** The form's two fields; an empty selection is "". */
  datatype Form = Form(customerName: string, selectedAttraction: string)

  /** `handleSellTicket` refuses a form with a blank name or no attraction ("fill in all fields"). */
  datatype SaleError = MissingFields

  /** A completed sale: the queue after the add, the cleared form and the code handed out. */
  datatype Sale = Sale(queue: seq<QueueStore.QueueEntry>, form: Form, braceletCode: string)

  const CodeDigits: nat := 6

  /** An upper-case base-36 digit. */
  predicate IsCodeChar(c: char) {
    '0' <= c <= '9' || 'A' <= c <= 'Z'
  }

  /** `generateBraceletCode()`: "BR" and the last six upper-cased base-36 digits of the clock. */
  function GenerateBraceletCode(now: nat): (code: string)
    ensures 3 <= |code| <= 2 + CodeDigits && code[..2] == "BR"
    ensures forall k :: 2 <= k < |code| ==> IsCodeChar(code[k])
    ensures now >= Pow(36, CodeDigits - 1) ==> |code| == 2 + CodeDigits
  {
    var digits := ToRadix(now, 36);
    var suffix := LastChars(Text.Upper(digits), CodeDigits);
    SuffixChars(digits);
    assert now >= Pow(36, CodeDigits - 1) ==> |digits| >= CodeDigits by {
      if now >= Pow(36, CodeDigits - 1) {
        LengthAtLeast(now, 36, CodeDigits - 1);
      }
    }
    "BR" + suffix
  }

  /** The kept digits of the clock, upper-cased, are code characters. */
  lemma SuffixChars(digits: string)
    requires forall k :: 0 <= k < |digits| ==> 0 <= DigitValue(digits[k]) < 36
    ensures var suffix := LastChars(Text.Upper(digits), CodeDigits);
      forall k :: 0 <= k < |suffix| ==> IsCodeChar(suffix[k])
  {
    var suffix := LastChars(Text.Upper(digits), CodeDigits);
    forall k | 0 <= k < |suffix|
      ensures IsCodeChar(suffix[k])
    {
      var j := |digits| - |suffix| + k;
      assert suffix[k] == Text.UpperChar(digits[j]);
      assert 0 <= DigitValue(digits[j]) < 36;
    }
  }

  /** Upper-casing a digit string does not change the number it denotes. */
  lemma {:induction false} UpperKeepsValue(s: string, base: nat)
    ensures FromRadix(Text.Upper(s), base) == FromRadix(s, base)
    decreases |s|
  {
    if |s| > 0 {
      var u := Text.Upper(s);
      assert u[..|u| - 1] == Text.Upper(s[..|s| - 1]);
      UpperKeepsValue(s[..|s| - 1], base);
    }
  }

  /** The code's suffix read back in base 36 is the clock modulo 36^6: the code pins down the
      millisecond within a cycle of about 25 days. */
  lemma CodeEncodesClock(now: nat)
    ensures FromRadix(GenerateBraceletCode(now)[2..], 36) == now % Pow(36, CodeDigits)
  {
    var digits := ToRadix(now, 36);
    var tail := LastChars(digits, CodeDigits);
    var suffix := LastChars(Text.Upper(digits), CodeDigits);
    assert suffix == Text.Upper(tail);
    assert GenerateBraceletCode(now)[2..] == suffix;
    UpperKeepsValue(tail, 36);
    LastDigits(now, 36, CodeDigits);
  }

  /** Two sales in the same 36^6-millisecond cycle but at different milliseconds get different codes. */
  lemma CodesDifferWithinCycle(t1: nat, t2: nat)
    requires t1 % Pow(36, CodeDigits) != t2 % Pow(36, CodeDigits)
    ensures GenerateBraceletCode(t1) != GenerateBraceletCode(t2)
  {
    CodeEncodesClock(t1);
    CodeEncodesClock(t2);
  }

  /** `handleSellTicket`: a blank name (after trimming) or no selected attraction is refused and nothing
      is queued. Otherwise the trimmed name is queued under a fresh code and the form is cleared. */
  function SellTicket(q: seq<QueueStore.QueueEntry>, form: Form, now: nat, freshId: string)
    : (r: Result<Sale, SaleError>)
    ensures r.Failure? <==> Text.IsBlank(form.customerName) || form.selectedAttraction == ""
    ensures r.Success? ==>
      && r.value.form == Form("", "")
      && r.value.braceletCode == GenerateBraceletCode(now)
      && r.value.queue == QueueStore.AddToQueue(q,
           QueueStore.NewEntry(form.selectedAttraction, r.value.braceletCode, Text.Trim(form.customerName)),
           freshId, now)
  {
    if Text.Trim(form.customerName) == [] || form.selectedAttraction == "" then Failure(MissingFields)
    else
      var code := GenerateBraceletCode(now);
      var entry := QueueStore.NewEntry(form.selectedAttraction, code, Text.Trim(form.customerName));
      Success(Sale(QueueStore.AddToQueue(q, entry, freshId, now), Form("", ""), code))
  }

  /** A sale for a catalog attraction appends exactly one entry, carrying the code, the trimmed
      name and the chosen attraction, behind the existing queue. */
  lemma SaleQueuesVisitor(q: seq<QueueStore.QueueEntry>, form: Form, now: nat, freshId: string)
    requires !Text.IsBlank(form.customerName) && Catalog.IsKnown(form.selectedAttraction)
    ensures var r := SellTicket(q, form, now, freshId);
      && r.Success?
      && |r.value.queue| == |q| + 1
      && r.value.queue[..|q|] == q
      && var e := r.value.queue[|q|];
      && e.braceletCode == r.value.braceletCode
      && e.customerName == Text.Trim(form.customerName)
      && !Text.IsBlank(e.customerName)
      && e.attractionId == form.selectedAttraction
  {
    TrimmedNameNotBlank(form.customerName);
  }

  lemma TrimmedNameNotBlank(name: string)
    requires !Text.IsBlank(name)
    ensures Text.Trim(name) != [] && !Text.IsBlank(Text.Trim(name))
  {
    var t := Text.Trim(name);
    assert !Text.IsSpace(t[0]);
  }
}
