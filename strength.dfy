/**
 * The strength scorer of password_checker.py (check_password_strength).
 *
 * The source keeps a running score and a feedback list and runs six checks
 * in a fixed order: the two length thresholds (8 and 12) and four
 * `re.search` character-class tests.  The length-8 check only awards a
 * point; each of the other five awards a point or adds a message.  Each
 * regular expression is modelled as "some character of the password lies in
 * a fixed set of code points".
 */
module PasswordStrength {

  /** The four character classes the source searches for with `re.search`. */
  datatype CharClass = Lowercase | Uppercase | Digit | Special

  /** The characters of the class `[!@#$%^&*(),.?":{}|<>]`. */
  const SpecialChars: string := "!@#$%^&*(),.?\":{}|<>"

  /** Membership of one code point in a class; `\d` is taken as ASCII 0-9. */
  predicate InClass(c: char, k: CharClass) {
    match k
    case Lowercase => 'a' <= c <= 'z'
    case Uppercase => 'A' <= c <= 'Z'
    case Digit => '0' <= c <= '9'
    case Special => c in SpecialChars
  }

  /** `re.search(<class>, s)` is truthy exactly when some character of `s` is in the class. */
  function Search(s: string, k: CharClass): (found: bool)
    ensures found <==> exists i :: 0 <= i < |s| && InClass(s[i], k)
  {
    if s == [] then false
    else if InClass(s[0], k) then true
    else
      var rest := Search(s[1..], k);
      assert forall i :: 1 <= i < |s| ==> s[i] == s[1..][i - 1];
      rest
  }

  /** The feedback texts, exactly as the source appends them. */
  const LengthMessage: string := "\U{2022} Should be at least 8 characters long."
  const LowercaseMessage: string := "\U{2022} Should contain lowercase letters."
  const UppercaseMessage: string := "\U{2022} Should contain uppercase letters."
  const DigitMessage: string := "\U{2022} Should contain numbers."
  const SpecialMessage: string := "\U{2022} Should contain special characters (e.g., !@#$%)."

  /**
   * The five checks that either award a point or add a message, in the order
   * the source runs them.  The length-8 bonus is not among them: it only
   * ever adds a point.  The message of the length-12 check speaks of 8
   * characters; that is what the source prints.
   */
  datatype Criterion = MinLength12 | HasLowercase | HasUppercase | HasDigit | HasSpecial

  const Criteria: seq<Criterion> := [MinLength12, HasLowercase, HasUppercase, HasDigit, HasSpecial]

  const AllMessages: seq<string> :=
    [LengthMessage, LowercaseMessage, UppercaseMessage, DigitMessage, SpecialMessage]

  predicate Meets(password: string, c: Criterion) {
    match c
    case MinLength12 => |password| >= 12
    case HasLowercase => Search(password, Lowercase)
    case HasUppercase => Search(password, Uppercase)
    case HasDigit => Search(password, Digit)
    case HasSpecial => Search(password, Special)
  }

  function Message(c: Criterion): string {
    match c
    case MinLength12 => LengthMessage
    case HasLowercase => LowercaseMessage
    case HasUppercase => UppercaseMessage
    case HasDigit => DigitMessage
    case HasSpecial => SpecialMessage
  }

  /** Position of a criterion in the fixed checking order. */
  function Rank(c: Criterion): nat {
    match c
    case MinLength12 => 0
    case HasLowercase => 1
    case HasUppercase => 2
    case HasDigit => 3
    case HasSpecial => 4
  }

  /** Position of a feedback text in the fixed order; 5 for a text that is none of them. */
  function MessageRank(m: string): nat {
    if m == LengthMessage then 0
    else if m == LowercaseMessage then 1
    else if m == UppercaseMessage then 2
    else if m == DigitMessage then 3
    else if m == SpecialMessage then 4
    else 5
  }

  /** How many of the checks `cs` the password passes. */
  function PassedCount(password: string, cs: seq<Criterion>): nat {
    if cs == [] then 0
    else PassedCount(password, cs[..|cs| - 1]) + (if Meets(password, cs[|cs| - 1]) then 1 else 0)
  }

  /** The messages of the checks in `cs` that the password fails, in the order of `cs`. */
  function FailedMessages(password: string, cs: seq<Criterion>): seq<string> {
    if cs == [] then []
    else
      FailedMessages(password, cs[..|cs| - 1])
      + (if Meets(password, cs[|cs| - 1]) then [] else [Message(cs[|cs| - 1])])
  }

  /** The score: the length-8 point plus one point per passed check. */
  function Score(password: string): int {
    (if |password| >= 8 then 1 else 0) + PassedCount(password, Criteria)
  }

  /** The feedback: one message per failed check, in checking order. */
  function Feedback(password: string): seq<string> {
    FailedMessages(password, Criteria)
  }

  /**
   * check_password_strength: a running score and a feedback list updated by
   * six sequential checks.  After each check the state agrees with the
   * specification written out check by check (Unfold).
   */
  method CheckPasswordStrength(password: string) returns (strengthScore: int, feedback: seq<string>)
    ensures strengthScore == Score(password)
    ensures feedback == Feedback(password)
  {
    Unfold(password);
    strengthScore := 0;
    feedback := [];

    // 1. Length checks
    if |password| >= 8 {
      strengthScore := strengthScore + 1;
    }
    if |password| >= 12 {
      strengthScore := strengthScore + 1;
    } else {
      feedback := feedback + [LengthMessage];
    }
    assert strengthScore == PointIf(|password| >= 8) + PointIf(Meets(password, MinLength12));
    assert feedback == MessageUnless(Meets(password, MinLength12), LengthMessage);

    // 2. Character-class checks
    ghost var before := feedback;
    if Search(password, Lowercase) {
      strengthScore := strengthScore + 1;
    } else {
      feedback := feedback + [LowercaseMessage];
    }
    assert feedback == before + MessageUnless(Meets(password, HasLowercase), LowercaseMessage);

    before := feedback;
    if Search(password, Uppercase) {
      strengthScore := strengthScore + 1;
    } else {
      feedback := feedback + [UppercaseMessage];
    }
    assert feedback == before + MessageUnless(Meets(password, HasUppercase), UppercaseMessage);

    before := feedback;
    if Search(password, Digit) {
      strengthScore := strengthScore + 1;
    } else {
      feedback := feedback + [DigitMessage];
    }
    assert feedback == before + MessageUnless(Meets(password, HasDigit), DigitMessage);

    before := feedback;
    if Search(password, Special) {
      strengthScore := strengthScore + 1;
    } else {
      feedback := feedback + [SpecialMessage];
    }
    assert feedback == before + MessageUnless(Meets(password, HasSpecial), SpecialMessage);
  }

  // ---------------------------------------------------------------------
  // Properties of the specification

  /** Every check either awards its point or adds its message, never both. */
  lemma {:induction false} PassedPlusFailed(password: string, cs: seq<Criterion>)
    ensures PassedCount(password, cs) + |FailedMessages(password, cs)| == |cs|
  {
    if cs != [] {
      PassedPlusFailed(password, cs[..|cs| - 1]);
    }
  }

  /** The score is between 0 and 6 for every password. */
  lemma ScoreBounds(password: string)
    ensures 0 <= Score(password) <= 6
  {
    PassedPlusFailed(password, Criteria);
  }

  /** Score plus the number of messages is 5 below 8 characters and 6 from 8 on. */
  lemma ScorePlusFeedback(password: string)
    ensures Score(password) + |Feedback(password)| == if |password| < 8 then 5 else 6
  {
    PassedPlusFailed(password, Criteria);
  }

  /** A text is among the failed messages exactly when some failed check of `cs` has it. */
  lemma {:induction false} InFailedMessages(password: string, cs: seq<Criterion>, m: string)
    ensures m in FailedMessages(password, cs)
        <==> exists i :: 0 <= i < |cs| && !Meets(password, cs[i]) && Message(cs[i]) == m
  {
    if cs != [] {
      var init := cs[..|cs| - 1];
      InFailedMessages(password, init, m);
      assert forall i :: 0 <= i < |init| ==> init[i] == cs[i];
    }
  }

  lemma MessageRankOfMessage(c: Criterion)
    ensures MessageRank(Message(c)) == Rank(c)
  {
    assert LengthMessage[2] == 'S' && LowercaseMessage[2] == 'S';
    assert LengthMessage[9] == 'b' && LowercaseMessage[9] == 'c';
    assert LowercaseMessage[17] == 'l' && UppercaseMessage[17] == 'u';
    assert |DigitMessage| != |LengthMessage| && |DigitMessage| != |LowercaseMessage|;
    assert |DigitMessage| != |UppercaseMessage|;
    assert |SpecialMessage| != |LengthMessage| && |SpecialMessage| != |LowercaseMessage|;
    assert |SpecialMessage| != |UppercaseMessage| && |SpecialMessage| != |DigitMessage|;
  }

  /** The length message is given exactly when the password is shorter than 12 characters. */
  lemma LengthMessageIff(password: string)
    ensures LengthMessage in Feedback(password) <==> |password| < 12
  {
    Unfold(password);
    MessageRankOfMessage(HasLowercase);
    MessageRankOfMessage(HasUppercase);
    MessageRankOfMessage(HasDigit);
    MessageRankOfMessage(HasSpecial);
  }

  /** Failed messages follow the order of strictly rank-increasing checks. */
  lemma {:induction false} FailedMessagesOrdered(password: string, cs: seq<Criterion>)
    requires forall i, j :: 0 <= i < j < |cs| ==> Rank(cs[i]) < Rank(cs[j])
    ensures forall m :: m in FailedMessages(password, cs) ==> MessageRank(m) < 5
    ensures forall i, j :: 0 <= i < j < |FailedMessages(password, cs)| ==>
      MessageRank(FailedMessages(password, cs)[i]) < MessageRank(FailedMessages(password, cs)[j])
  {
    if cs != [] {
      var init, last := cs[..|cs| - 1], cs[|cs| - 1];
      FailedMessagesOrdered(password, init);
      forall m | m in FailedMessages(password, cs)
        ensures MessageRank(m) < 5
        ensures m in FailedMessages(password, init) ==> MessageRank(m) < Rank(last)
      {
        InFailedMessages(password, cs, m);
        InFailedMessages(password, init, m);
        var i :| 0 <= i < |cs| && !Meets(password, cs[i]) && Message(cs[i]) == m;
        MessageRankOfMessage(cs[i]);
        if m in FailedMessages(password, init) {
          var k :| 0 <= k < |init| && !Meets(password, init[k]) && Message(init[k]) == m;
          MessageRankOfMessage(init[k]);
          assert init[k] == cs[k];
        }
      }
      MessageRankOfMessage(last);
    }
  }

  /** Each message appears at most once, in the order length, lowercase, uppercase, digit, special. */
  lemma FeedbackOrdered(password: string)
    ensures forall i, j :: 0 <= i < j < |Feedback(password)| ==>
      MessageRank(Feedback(password)[i]) < MessageRank(Feedback(password)[j])
    ensures forall m :: m in Feedback(password) ==> m in AllMessages
  {
    assert forall i :: 0 <= i < |Criteria| ==> Rank(Criteria[i]) == i;
    FailedMessagesOrdered(password, Criteria);
    forall m | m in Feedback(password) ensures m in AllMessages {
      assert MessageRank(m) < 5;
      assert m == AllMessages[MessageRank(m)];
    }
  }

  /** The feedback is empty exactly when the score is the maximum, 6. */
  lemma FeedbackEmptyIffFullScore(password: string)
    ensures Feedback(password) == [] <==> Score(password) == 6
  {
    ScorePlusFeedback(password);
    LengthMessageIff(password);
  }

  /** Adding one check at the end either adds its point or appends its message. */
  lemma AppendCriterion(password: string, cs: seq<Criterion>, c: Criterion)
    ensures PassedCount(password, cs + [c]) == PassedCount(password, cs) + PointIf(Meets(password, c))
    ensures FailedMessages(password, cs + [c])
         == FailedMessages(password, cs) + MessageUnless(Meets(password, c), Message(c))
  {
    assert (cs + [c])[..|cs|] == cs;
  }

  /** The point of a check: 1 when it passes. */
  function PointIf(passed: bool): nat {
    if passed then 1 else 0
  }

  /** The message `m` when a check fails, nothing when it passes. */
  function MessageUnless(passed: bool, m: string): seq<string> {
    if passed then [] else [m]
  }

  /** The specification written out check by check, for concrete passwords. */
  lemma Unfold(password: string)
    ensures Score(password) ==
      PointIf(|password| >= 8) + PointIf(Meets(password, MinLength12)) + PointIf(Meets(password, HasLowercase))
      + PointIf(Meets(password, HasUppercase)) + PointIf(Meets(password, HasDigit)) + PointIf(Meets(password, HasSpecial))
    ensures Feedback(password) ==
      MessageUnless(Meets(password, MinLength12), LengthMessage)
      + MessageUnless(Meets(password, HasLowercase), LowercaseMessage)
      + MessageUnless(Meets(password, HasUppercase), UppercaseMessage)
      + MessageUnless(Meets(password, HasDigit), DigitMessage)
      + MessageUnless(Meets(password, HasSpecial), SpecialMessage)
  {
    var c0: seq<Criterion> := [];
    var c1 := c0 + [MinLength12];
    var c2 := c1 + [HasLowercase];
    var c3 := c2 + [HasUppercase];
    var c4 := c3 + [HasDigit];
    assert c4 + [HasSpecial] == Criteria;
    AppendCriterion(password, c0, MinLength12);
    AppendCriterion(password, c1, HasLowercase);
    AppendCriterion(password, c2, HasUppercase);
    AppendCriterion(password, c3, HasDigit);
    AppendCriterion(password, c4, HasSpecial);
    assert Score(password) == PointIf(|password| >= 8) + PassedCount(password, Criteria);
  }

  /** The empty password scores 0 and receives all five messages. */
  lemma EmptyPassword()
    ensures Score("") == 0
    ensures Feedback("") == AllMessages
  {
    Unfold("");
  }

  /** Ten characters of every class: 5 points, only the length message. */
  lemma TenCharacterExample()
    ensures Score("Abcdefgh1!") == 5
    ensures Feedback("Abcdefgh1!") == [LengthMessage]
  {
    var p := "Abcdefgh1!";
    assert InClass(p[0], Uppercase) && InClass(p[1], Lowercase);
    assert InClass(p[8], Digit) && InClass(p[9], Special);
    Unfold(p);
  }

  /** Fourteen characters of every class: the full 6 points and no feedback. */
  lemma FourteenCharacterExample()
    ensures Score("Abcdefghijkl1!") == 6
    ensures Feedback("Abcdefghijkl1!") == []
  {
    var p := "Abcdefghijkl1!";
    assert InClass(p[0], Uppercase) && InClass(p[1], Lowercase);
    assert InClass(p[12], Digit) && InClass(p[13], Special);
    Unfold(p);
  }
}
