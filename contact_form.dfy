/**
 * The contact page: a list of chosen options without duplicates, fed from
 * checkboxes and from a free-text field, plus the phone and e-mail checks of
 * its validate button.
 */
module ContactForm {
  import opened Text
  import Email

  /** No entry appears twice. */
  predicate NoDuplicates(items: seq<string>) {
    forall i, j :: 0 <= i < j < |items| ==> items[i] != items[j]
  }

  /**
   * The entries of `values` that `items` lacks, each at its first occurrence
   * and in the order of `values`: what adding `values` one at a time with an
   * `includes` test appends.
   */
  function Fresh(items: seq<string>, values: seq<string>): seq<string> {
    if values == [] then []
    else
      var init := values[..|values| - 1];
      var v := values[|values| - 1];
      var prior := Fresh(items, init);
      if v in items || v in init then prior else prior + [v]
  }

  /** The fresh entries are the values `items` lacks, none twice, and no more of them than values. */
  lemma {:induction false} FreshMembers(items: seq<string>, values: seq<string>)
    ensures forall x :: x in Fresh(items, values) <==> x in values && x !in items
    ensures NoDuplicates(Fresh(items, values))
    ensures |Fresh(items, values)| <= |values|
    decreases |values|
  {
    if values != [] {
      var init := values[..|values| - 1];
      FreshMembers(items, init);
      assert values == init + [values[|values| - 1]];
    }
  }

  /** The entries kept before and after an entry is taken out at `index`. */
  function RemovedAt(items: seq<string>, index: nat): (r: seq<string>)
    requires index < |items|
    ensures |r| == |items| - 1
    ensures forall k :: 0 <= k < index ==> r[k] == items[k]
    ensures forall k :: index <= k < |r| ==> r[k] == items[k + 1]
    ensures multiset(r) + multiset{items[index]} == multiset(items)
  {
    assert items == items[..index] + [items[index]] + items[index + 1..];
    items[..index] + items[index + 1..]
  }

  /** Taking an entry out of a list without duplicates removes every copy of it. */
  lemma RemovedAtDropsEntry(items: seq<string>, index: nat)
    requires index < |items| && NoDuplicates(items)
    ensures NoDuplicates(RemovedAt(items, index))
    ensures items[index] !in RemovedAt(items, index)
    ensures forall x :: x in RemovedAt(items, index) <==> x in items && x != items[index]
  {
    var r := RemovedAt(items, index);
    forall x | x in r ensures x in items && x != items[index] {
      var k :| 0 <= k < |r| && r[k] == x;
      if k < index { assert x == items[k]; } else { assert x == items[k + 1]; }
    }
    forall x | x in items && x != items[index] ensures x in r {
      var k :| 0 <= k < |items| && items[k] == x;
      if k < index { assert r[k] == x; } else { assert r[k - 1] == x; }
    }
  }

  /** Appending the fresh entries of `values` keeps a list free of duplicates. */
  lemma FreshKeepsNoDuplicates(items: seq<string>, values: seq<string>)
    requires NoDuplicates(items)
    ensures NoDuplicates(items + Fresh(items, values))
  {
    FreshMembers(items, values);
    var r := items + Fresh(items, values);
    forall i, j | 0 <= i < j < |r| ensures r[i] != r[j] {
      if j >= |items| && i < |items| {
        assert r[j] in Fresh(items, values);
      } else if j >= |items| {
        assert r[i] == Fresh(items, values)[i - |items|];
      }
    }
  }

  /** One more value extends the fresh entries by that value exactly when it is new. */
  lemma FreshStep(items: seq<string>, checked: seq<string>, k: nat)
    requires k < |checked|
    ensures checked[k] in items + Fresh(items, checked[..k]) <==> checked[k] in items || checked[k] in checked[..k]
    ensures Fresh(items, checked[..k + 1]) ==
      if checked[k] in items || checked[k] in checked[..k] then Fresh(items, checked[..k])
      else Fresh(items, checked[..k]) + [checked[k]]
  {
    FreshMembers(items, checked[..k]);
    assert checked[..k + 1][..k] == checked[..k];
  }

  /** For each checked value, whether it is new: absent from `items` and from the values before it. */
  function Cleared(items: seq<string>, checked: seq<string>): (c: seq<bool>)
    ensures |c| == |checked|
  {
    seq(|checked|, i requires 0 <= i < |checked| => checked[i] !in items && checked[i] !in checked[..i])
  }

  /** One more value adds its own newness to the flags. */
  lemma ClearedStep(items: seq<string>, checked: seq<string>, k: nat)
    requires k < |checked|
    ensures Cleared(items, checked[..k + 1]) ==
      Cleared(items, checked[..k]) + [checked[k] !in items && checked[k] !in checked[..k]]
  {
    var p := checked[..k + 1];
    forall i | 0 <= i < k ensures p[..i] == checked[..i] {
    }
  }

  /**
   * The loop of the add-checked button over the checked values in document
   * order: each value missing from the list so far is pushed, and its
   * checkbox cleared.
   */
  method AppendFresh(items: seq<string>, checked: seq<string>) returns (r: seq<string>, unchecked: seq<bool>)
    ensures r == items + Fresh(items, checked)
    ensures |unchecked| == |checked|
    ensures forall i :: 0 <= i < |checked| ==>
      (unchecked[i] <==> checked[i] !in items && checked[i] !in checked[..i])
  {
    r, unchecked := items, [];
    var k := 0;
    while k < |checked|
      invariant 0 <= k <= |checked|
      invariant r == items + Fresh(items, checked[..k])
      invariant unchecked == Cleared(items, checked[..k])
    {
      var v := checked[k];
      FreshStep(items, checked, k);
      ClearedStep(items, checked, k);
      if v !in r {
        r := r + [v];
        unchecked := unchecked + [true];
      } else {
        unchecked := unchecked + [false];
      }
      k := k + 1;
    }
    assert checked[..k] == checked;
  }

  /** The list of selections, `userSelections`. */
  class Selections {
    var items: seq<string>

    ghost predicate Valid()
      reads this
    {
      NoDuplicates(items)
    }

    constructor ()
      ensures Valid() && items == []
    {
      items := [];
    }

    /**
     * The add-checked button: appends each checked value the list lacks.
     * `unchecked[i]` says whether checkbox `i` was appended and so cleared.
     */
    method AddChecked(checked: seq<string>) returns (unchecked: seq<bool>)
      requires Valid()
      modifies this
      ensures Valid()
      ensures items == old(items) + Fresh(old(items), checked)
      ensures |unchecked| == |checked|
      ensures forall i :: 0 <= i < |checked| ==>
        (unchecked[i] <==> checked[i] !in old(items) && checked[i] !in checked[..i])
    {
      FreshKeepsNoDuplicates(items, checked);
      items, unchecked := AppendFresh(items, checked);
    }
    /**
     * The add-custom button: appends the trimmed text when it is not blank
     * and not yet listed; `input` is what the text field then holds.
     */
    method AddCustom(raw: string) returns (added: bool, input: string)
      requires Valid()
      modifies this
      ensures Valid()
      ensures added <==> Trim(raw) != "" && Trim(raw) !in old(items)
      ensures items == if added then old(items) + [Trim(raw)] else old(items)
      ensures input == if added then "" else raw
    {
      var custom := Trim(raw);
      if custom != "" && custom !in items {
        items := items + [custom];
        added, input := true, "";
      } else {
        added, input := false, raw;
      }
    }

    /** The clear-all button. */
    method Clear()
      modifies this
      ensures Valid() && items == []
    {
      items := [];
    }

    /** `removeSelection`: an index outside the list changes nothing. */
    method RemoveAt(index: int)
      requires Valid()
      modifies this
      ensures Valid()
      ensures 0 <= index < |old(items)| ==> items == RemovedAt(old(items), index)
      ensures !(0 <= index < |old(items)|) ==> items == old(items)
    {
      if 0 <= index < |items| {
        RemovedAtDropsEntry(items, index);
        items := RemovedAt(items, index);
      }
    }
  }

  /** `validatePhone`: exactly ten decimal digits, whatever else surrounds them. */
  predicate ValidatePhone(phone: string) {
    |DigitsOf(phone)| == 10
  }

  /** JavaScript's `s.slice(from, to)` for non-negative bounds: both are clamped to the length. */
  function Slice(s: string, from: nat, to: nat): (r: string)
    ensures |r| <= |s|
  {
    var hi := if to <= |s| then to else |s|;
    var lo := if from <= hi then from else hi;
    s[lo..hi]
  }

  /** The display form `(ddd) ddd-dddd` built from the extracted digits. */
  function FormatPhone(d: string): (r: string)
    ensures |d| == 10 ==> |r| == 14 && r[0] == '(' && r[4] == ')' && r[5] == ' ' && r[9] == '-'
    ensures |d| == 10 ==> r[1..4] == d[..3] && r[6..9] == d[3..6] && r[10..] == d[6..]
  {
    "(" + Slice(d, 0, 3) + ") " + Slice(d, 3, 6) + "-" + Slice(d, 6, |d|)
  }

  /** Formatting adds only punctuation: its digits are exactly the ten digits formatted. */
  lemma FormatPhoneKeepsDigits(d: string)
    requires AllDigits(d) && |d| == 10
    ensures DigitsOf(FormatPhone(d)) == d
  {
    var a, b, c := d[..3], d[3..6], d[6..];
    assert FormatPhone(d) == "(" + a + ") " + b + "-" + c;
    PunctuationHasNoDigits(a, b, c);
    assert AllDigits(a) && AllDigits(b) && AllDigits(c);
    DigitsOfDigits(a);
    DigitsOfDigits(b);
    DigitsOfDigits(c);
    assert a + b + c == d;
  }

  /** The punctuation of the display form contributes no digits. */
  lemma PunctuationHasNoDigits(a: string, b: string, c: string)
    ensures DigitsOf("(" + a + ") " + b + "-" + c) == DigitsOf(a) + DigitsOf(b) + DigitsOf(c)
  {
    var x2 := "(" + a + ") ";
    var x4 := x2 + b + "-";
    assert DigitsOf(x2) == DigitsOf(a) by {
      DigitsOfNone("(");
      DigitsOfNone(") ");
      DigitsOfAround("(", a, ") ");
    }
    assert DigitsOf(x4) == DigitsOf(a) + DigitsOf(b) by {
      DigitsOfNone("-");
      DigitsOfAround(x2, b, "-");
    }
    DigitsOfAppend(x4, c);
  }

  /** What the validate button shows. */
  datatype Outcome =
    | Accepted(phone: string, email: string)
    | Rejected(phoneError: bool, emailError: bool)

  /**
   * The validate button: both fields must pass; on success the phone is shown
   * formatted and the e-mail as typed, on failure each failing field is
   * flagged.
   */
  function Validate(phone: string, email: string): (r: Outcome)
    ensures r.Accepted? <==> ValidatePhone(phone) && Email.ValidateEmail(email)
    ensures r.Accepted? ==> r.phone == FormatPhone(DigitsOf(phone)) && r.email == email
    ensures r.Accepted? ==> DigitsOf(r.phone) == DigitsOf(phone) && |r.phone| == 14
    ensures r.Rejected? ==> (r.phoneError <==> !ValidatePhone(phone)) && (r.emailError <==> !Email.ValidateEmail(email))
  {
    var phoneOk := ValidatePhone(phone);
    var emailOk := Email.ValidateEmail(email);
    if phoneOk && emailOk then
      FormatPhoneKeepsDigits(DigitsOf(phone));
      Accepted(FormatPhone(DigitsOf(phone)), email)
    else
      Rejected(!phoneOk, !emailOk)
  }

  /**
   * The `input` listeners: a field's error marker is hidden once its value
   * passes and otherwise left as it was; typing never raises one.
   */
  function AfterInput(errorShown: bool, valid: bool): (shown: bool)
    ensures valid ==> !shown
    ensures !valid ==> shown == errorShown
  {
    if valid then false else errorShown
  }
}
