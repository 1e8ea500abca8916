/** `ScoreLabel`: a text label that shows `content: score`. The PIXI text object is left out;
    only the content, the stored score and the text string are kept. */
module ScoreLabels {

  /** A JavaScript value handed to `setScore`: `null`/`undefined` or a number. */
  datatype ScoreArg = Absent | Num(n: int)

  predicate IsDigit(c: char) {
    '0' <= c <= '9'
  }

  function DigitChar(d: int): (c: char)
    requires 0 <= d < 10
    ensures IsDigit(c) && c as int - '0' as int == d
  {
    ('0' as int + d) as char
  }

  /** Decimal digits of `n`, most significant first, without leading zeros. */
  function NatText(n: nat): (s: string)
    ensures |s| > 0 && forall i | 0 <= i < |s| :: IsDigit(s[i])
    decreases n
  {
    if n < 10 then [DigitChar(n)] else NatText(n / 10) + [DigitChar(n % 10)]
  }

  /** The string a template literal `${n}` produces for an integer. */
  function NumberText(n: int): string {
    if n < 0 then "-" + NatText(-n) else NatText(n)
  }

  function ParseNat(s: string): nat
    requires forall i | 0 <= i < |s| :: IsDigit(s[i])
  {
    if |s| == 0 then 0
    else
      assert IsDigit(s[|s| - 1]);
      ParseNat(s[..|s| - 1]) * 10 + (s[|s| - 1] as int - '0' as int)
  }

  function ParseNumber(s: string): int
    requires |s| > 0
    requires forall i | 1 <= i < |s| :: IsDigit(s[i])
    requires s[0] == '-' || IsDigit(s[0])
  {
    if s[0] == '-' then -(ParseNat(s[1..]) as int) else ParseNat(s)
  }

  lemma {:induction false} ParseNatText(n: nat)
    ensures ParseNat(NatText(n)) == n
    decreases n
  {
    if n >= 10 {
      var s := NatText(n);
      ParseNatText(n / 10);
      assert s[..|s| - 1] == NatText(n / 10);
    }
  }

  /** The text of a number reads back as that number, so different scores show differently. */
  lemma NumberTextRoundTrip(n: int)
    ensures var s := NumberText(n);
            && |s| > 0 && (s[0] == '-' || IsDigit(s[0]))
            && (forall i | 1 <= i < |s| :: IsDigit(s[i]))
            && ParseNumber(s) == n
  {
    if n < 0 {
      ParseNatText(-n);
      assert NumberText(n)[1..] == NatText(-n);
    } else {
      ParseNatText(n);
    }
  }

  datatype ScoreLabel = ScoreLabel(content: string, score: int, text: string) {

    /** What every mutator re-establishes: the text reads `content: score`. */
    predicate Shows() {
      text == content + ": " + NumberText(score)
    }

    /** `setText`. */
    function SetText(): (r: ScoreLabel)
      ensures r.Shows()
      ensures r.content == content && r.score == score
    {
      this.(text := content + ": " + NumberText(score))
    }

    /** `increaseScore`. */
    function IncreaseScore(): (r: ScoreLabel)
      ensures r.Shows() && r.content == content
      ensures r.GetScore() == GetScore() + 1
    {
      this.(score := score + 1).SetText()
    }

    /** `setScore`: a truthy argument is stored as-is, a falsy one (0, null, undefined) as 0. */
    function SetScore(arg: ScoreArg): (r: ScoreLabel)
      ensures r.Shows() && r.content == content
      ensures arg.Num? && arg.n != 0 ==> r.GetScore() == arg.n
      ensures arg.Absent? || arg == Num(0) ==> r.GetScore() == 0
    {
      match arg
      case Num(n) => if n != 0 then this.(score := n).SetText() else this.(score := 0).SetText()
      case Absent => this.(score := 0).SetText()
    }

    /** `getScore`: the score stored last. */
    function GetScore(): int {
      score
    }

    /** `reset`. */
    function Reset(): (r: ScoreLabel)
      ensures r.Shows() && r.content == content
      ensures r.GetScore() == 0
    {
      this.(score := 0).SetText()
    }
  }

  /** The constructor: `super(text)` sets the text, then `setScore` and `setText` run. */
  function NewScoreLabel(text: string, arg: ScoreArg): (r: ScoreLabel)
    ensures r.Shows() && r.content == text
    ensures r.GetScore() == if arg.Num? then arg.n else 0
  {
    ScoreLabel(text, 0, text).SetScore(arg).SetText()
  }

  /** A label that shows its score lets a reader recover the score from the text alone. */
  lemma ShownScoreReadsBack(l: ScoreLabel)
    requires l.Shows()
    ensures |l.text| > |l.content| + 2
    ensures var digits := l.text[|l.content| + 2..];
            && (digits[0] == '-' || IsDigit(digits[0]))
            && (forall i | 1 <= i < |digits| :: IsDigit(digits[i]))
            && ParseNumber(digits) == l.score
  {
    NumberTextRoundTrip(l.score);
    assert l.text[|l.content| + 2..] == NumberText(l.score);
  }

  /** The label's mutators, so that a run of calls can be written as a sequence. */
  datatype Mutator = Increase | SetTo(arg: ScoreArg) | Clear

  function Apply(l: ScoreLabel, m: Mutator): ScoreLabel {
    match m
    case Increase => l.IncreaseScore()
    case SetTo(arg) => l.SetScore(arg)
    case Clear => l.Reset()
  }

  /** The label after the calls of `ms`, first to last. */
  function ApplyAll(l: ScoreLabel, ms: seq<Mutator>): ScoreLabel
    decreases |ms|
  {
    if |ms| == 0 then l else Apply(ApplyAll(l, ms[..|ms| - 1]), ms[|ms| - 1])
  }

  function Increases(n: nat): seq<Mutator> {
    seq(n, _ => Increase)
  }

  /** Any run of mutators keeps the content, and after at least one call the text shows the
      score. */
  lemma {:induction false} MutatorsKeepText(l: ScoreLabel, ms: seq<Mutator>)
    ensures ApplyAll(l, ms).content == l.content
    ensures |ms| > 0 ==> ApplyAll(l, ms).Shows()
  {
    if |ms| > 0 {
      MutatorsKeepText(l, ms[..|ms| - 1]);
    }
  }

  /** Each `increaseScore` in a run adds exactly one to the score. */
  lemma {:induction false} IncreasesCount(l: ScoreLabel, pre: seq<Mutator>, n: nat)
    ensures ApplyAll(l, pre + Increases(n)).GetScore() == ApplyAll(l, pre).GetScore() + n
  {
    var ms := pre + Increases(n);
    if n == 0 {
      assert ms == pre;
    } else {
      IncreasesCount(l, pre, n - 1);
      assert ms[..|ms| - 1] == pre + Increases(n - 1);
      assert ms[|ms| - 1] == Increase;
    }
  }

  /** After a `reset` or a `setScore`, the score is what that call stored plus the number of
      increases since, whatever came before. */
  lemma StoreThenIncreases(l: ScoreLabel, pre: seq<Mutator>, m: Mutator, n: nat)
    requires m != Increase
    ensures ApplyAll(l, pre + [m] + Increases(n)).GetScore() ==
              n + (if m.SetTo? && m.arg.Num? then m.arg.n else 0)
  {
    IncreasesCount(l, pre + [m], n);
    assert (pre + [m])[..|pre|] == pre;
  }
}
