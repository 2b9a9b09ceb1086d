/**
 * The greeting form: an age classified by the first age group whose range
 * holds it, a fun fact picked by a case-insensitive keyword, and the submit
 * handler that combines them once the name and the age are present.
 */
module AgeForm {
  import opened Wrappers
  import opened Text

  // --------------------------------------------------------------- age groups

  /** An entry of `ageGroups`: the inclusive range `min..max` and its message. */
  datatype Group = Group(min: int, max: int, message: string)

  const AgeGroups: seq<Group> := [
    Group(0, 12, "You're a child! Enjoy your time!"),
    Group(13, 19, "You're a teenager! Keep learning and exploring!"),
    Group(20, 64, "You're an adult! Keep pushing forward!"),
    Group(65, 120, "You're a senior! Share your wisdom!")
  ]

  const InvalidAge: string := "Please enter a valid age."

  /** `age >= group.min && age <= group.max`; the age is any JavaScript number, here a real. */
  predicate InGroup(age: real, g: Group) {
    g.min as real <= age <= g.max as real
  }

  /** The groups are in increasing order and none overlaps the next. */
  predicate Ordered(groups: seq<Group>) {
    forall i, j :: 0 <= i < j < |groups| ==> groups[i].max < groups[j].min
  }

  /** The message of the first group from `i` on that holds `age`, or `""` when none does. */
  function FirstMatch(age: real, groups: seq<Group>, i: nat): string
    requires i <= |groups|
    decreases |groups| - i
  {
    if i == |groups| then ""
    else if InGroup(age, groups[i]) then groups[i].message
    else FirstMatch(age, groups, i + 1)
  }

  /** What `displayAgeMessage(age)` returns. */
  function AgeMessage(age: real): string {
    if age < 0.0 || age > 120.0 then InvalidAge else FirstMatch(age, AgeGroups, 0)
  }

  /** `displayAgeMessage`: the range guard, then a scan over the groups that stops at the first hit. */
  method DisplayAgeMessage(age: real) returns (message: string)
    ensures message == AgeMessage(age)
  {
    message := "";
    if age < 0.0 || age > 120.0 {
      message := InvalidAge;
    } else {
      var i := 0;
      while i < |AgeGroups|
        invariant 0 <= i <= |AgeGroups|
        invariant message == ""
        invariant FirstMatch(age, AgeGroups, i) == FirstMatch(age, AgeGroups, 0)
      {
        if age >= AgeGroups[i].min as real && age <= AgeGroups[i].max as real {
          message := AgeGroups[i].message;
          break;
        }
        i := i + 1;
      }
    }
  }

  /** In ordered groups, an age held by group `k` gets group `k`'s message. */
  lemma {:induction false} FirstMatchFinds(age: real, groups: seq<Group>, i: nat, k: nat)
    requires Ordered(groups) && i <= k < |groups| && InGroup(age, groups[k])
    ensures FirstMatch(age, groups, i) == groups[k].message
    decreases k - i
  {
    if i < k {
      assert groups[i].max < groups[k].min;
      FirstMatchFinds(age, groups, i + 1, k);
    }
  }

  /** With non-empty messages, the scan comes back empty exactly when no group from `i` on holds the age. */
  lemma {:induction false} FirstMatchEmptyIff(age: real, groups: seq<Group>, i: nat)
    requires i <= |groups|
    requires forall k :: 0 <= k < |groups| ==> groups[k].message != ""
    ensures FirstMatch(age, groups, i) == "" <==> forall k :: i <= k < |groups| ==> !InGroup(age, groups[k])
    decreases |groups| - i
  {
    if i < |groups| && !InGroup(age, groups[i]) {
      FirstMatchEmptyIff(age, groups, i + 1);
    }
  }

  /** Every group's message starts with `Y`, the invalid-age text with `P`. */
  lemma MessageInitials()
    ensures forall k :: 0 <= k < |AgeGroups| ==> AgeGroups[k].message != "" && AgeGroups[k].message[0] == 'Y'
    ensures InvalidAge[0] == 'P'
  {
    assert AgeGroups[0].message[0] == 'Y';
    assert AgeGroups[1].message[0] == 'Y';
    assert AgeGroups[2].message[0] == 'Y';
    assert AgeGroups[3].message[0] == 'Y';
  }

  /** The scan yields a group's message or nothing, and so never the invalid-age text. */
  lemma {:induction false} FirstMatchNotInvalid(age: real, i: nat)
    requires i <= |AgeGroups|
    ensures FirstMatch(age, AgeGroups, i) != InvalidAge
    decreases |AgeGroups| - i
  {
    if i < |AgeGroups| && !InGroup(age, AgeGroups[i]) {
      FirstMatchNotInvalid(age, i + 1);
    } else if i < |AgeGroups| {
      MessageInitials();
    }
  }

  /** The invalid-age text appears exactly for ages below 0 or above 120. */
  lemma InvalidIffOutOfRange(age: real)
    ensures AgeMessage(age) == InvalidAge <==> age < 0.0 || age > 120.0
  {
    FirstMatchNotInvalid(age, 0);
  }

  /** The table is in increasing order with no overlaps. */
  lemma AgeGroupsOrdered()
    ensures Ordered(AgeGroups)
  {
  }

  /**
   * Every whole age from 0 to 120 lies in exactly one group, and gets that
   * group's message.
   */
  lemma WholeAgeHasOneGroup(n: int)
    requires 0 <= n <= 120
    ensures exists k :: (0 <= k < |AgeGroups| && InGroup(n as real, AgeGroups[k])
      && (forall j :: 0 <= j < |AgeGroups| && InGroup(n as real, AgeGroups[j]) ==> j == k)
      && AgeMessage(n as real) == AgeGroups[k].message)
  {
    var k := if n <= 12 then 0 else if n <= 19 then 1 else if n <= 64 then 2 else 3;
    assert InGroup(n as real, AgeGroups[k]);
    AgeGroupsOrdered();
    FirstMatchFinds(n as real, AgeGroups, 0, k);
    assert forall j :: 0 <= j < |AgeGroups| && InGroup(n as real, AgeGroups[j]) ==> j == k;
  }

  /**
   * The empty message comes only from an age within 0..120 that no group
   * holds, which cannot be a whole number.
   */
  lemma EmptyOnlyBetweenGroups(age: real)
    ensures AgeMessage(age) == "" <==>
      0.0 <= age <= 120.0 && forall k :: 0 <= k < |AgeGroups| ==> !InGroup(age, AgeGroups[k])
    ensures AgeMessage(age) == "" ==> age != age.Floor as real
  {
    MessageInitials();
    FirstMatchEmptyIff(age, AgeGroups, 0);
    if AgeMessage(age) == "" && age == age.Floor as real {
      WholeAgeHasOneGroup(age.Floor);
    }
  }

  /** 12.5 falls between the child and teenager groups. */
  lemma TwelveAndAHalfGetsNothing()
    ensures AgeMessage(12.5) == ""
  {
    MessageInitials();
    FirstMatchEmptyIff(12.5, AgeGroups, 0);
  }

  // ---------------------------------------------------------------- fun facts

  /** The cases of the `switch` in `displayFunFact`. */
  datatype Topic = Coding | Music | Fitness | Other

  /** The `switch` on `category.toLowerCase()`. */
  function TopicOf(category: string): Topic {
    Switch(AsciiLower(category))
  }

  /** The `switch` itself, on the lower-cased category `c`. */
  function Switch(c: string): Topic {
    if c == "coding" then Coding
    else if c == "music" then Music
    else if c == "fitness" then Fitness
    else Other
  }

  function FactText(t: Topic): string {
    match t
    case Coding => "Did you know? The first computer programmer was Ada Lovelace in the 1800s!"
    case Music => "Fun Fact: The world's largest grand piano was built by a 15-year-old in New Zealand!"
    case Fitness => "Health Tip: Exercising for just 30 minutes a day can boost your mood and productivity!"
    case Other => "Interesting choice! Keep exploring and learning new things!"
  }

  /** `displayFunFact(category)` */
  function DisplayFunFact(category: string): string {
    FactText(TopicOf(category))
  }

  /** A word made of characters that lower-casing leaves alone. */
  predicate LowerWord(w: string) {
    forall k :: 0 <= k < |w| ==> LowerChar(w[k]) == w[k]
  }

  /** Lower-casing `c` gives the lower-case word `w` exactly when `c` is `w` up to case. */
  lemma LowerIffIgnoringCase(c: string, w: string)
    requires LowerWord(w)
    ensures AsciiLower(c) == w <==> EqualsIgnoringCase(c, w)
  {
    if EqualsIgnoringCase(c, w) {
      assert forall k :: 0 <= k < |w| ==> AsciiLower(c)[k] == w[k];
    }
  }

  /** Each keyword is recognised in any mix of upper and lower case, and only then. */
  lemma TopicIffKeyword(category: string)
    ensures TopicOf(category) == Coding <==> EqualsIgnoringCase(category, "coding")
    ensures TopicOf(category) == Music <==> EqualsIgnoringCase(category, "music")
    ensures TopicOf(category) == Fitness <==> EqualsIgnoringCase(category, "fitness")
  {
    LowerIffIgnoringCase(category, "coding");
    LowerIffIgnoringCase(category, "music");
    LowerIffIgnoringCase(category, "fitness");
  }

  /** Two categories that differ only in case get the same fact. */
  lemma FunFactIgnoresCase(a: string, b: string)
    requires EqualsIgnoringCase(a, b)
    ensures DisplayFunFact(a) == DisplayFunFact(b)
  {
    LowerIgnoringCase(a, b);
  }

  /** Any category that is none of the three keywords falls to the default case, and only such a category does. */
  lemma OtherIffNoKeyword(category: string)
    ensures TopicOf(category) == Other <==>
      !EqualsIgnoringCase(category, "coding") && !EqualsIgnoringCase(category, "music")
      && !EqualsIgnoringCase(category, "fitness")
  {
    TopicIffKeyword(category);
  }

  // ------------------------------------------------------------------- submit

  /** `Hi, ${name}! ${ageMessage} \n ${funFact}` */
  function Greeting(name: string, ageMessage: string, funFact: string): string {
    "Hi, " + name + "! " + ageMessage + " \n " + funFact
  }

  /**
   * The submit handler, given the name field and `parseInt` of the trimmed
   * age field (`None` for `NaN`): no greeting when the trimmed name is empty
   * or the age is not a number, else the greeting with the age message and
   * the fact for "coding".
   */
  function Submit(nameInput: string, age: Option<int>): (result: Option<string>)
    ensures result.None? <==> Trim(nameInput) == "" || age.None?
    ensures result.Some? ==>
      result.value == Greeting(Trim(nameInput), AgeMessage(age.value as real), FactText(Coding))
  {
    var name := Trim(nameInput);
    TopicIffKeyword("coding");
    if name == "" || age.None? then None
    else Some(Greeting(name, AgeMessage(age.value as real), DisplayFunFact("coding")))
  }

  /** A whole-number age never leaves the greeting's age message empty. */
  lemma SubmittedAgeMessageNotEmpty(nameInput: string, age: Option<int>)
    requires Submit(nameInput, age).Some?
    ensures AgeMessage(age.value as real) != ""
  {
    EmptyOnlyBetweenGroups(age.value as real);
  }
}
