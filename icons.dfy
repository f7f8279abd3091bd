/**
 * The icon shown in front of each route instruction (`iconFor` in script.js).
 * The instruction text is lower-cased and then tested against a fixed
 * cascade of keywords; the first keyword found decides the icon.
 */
module Icons {

  /** The emoji the directions panel can show, one constructor per distinct glyph. */
  datatype Icon =
    | ArrowUp         // U+2B06 U+FE0F, head / start / continue
    | ArrowLeft       // U+2B05 U+FE0F
    | ArrowRight      // U+27A1 U+FE0F
    | ArrowUpRight    // U+2197 U+FE0F, merge
    | ArrowDownRight  // U+2198 U+FE0F, exit
    | ArrowReturn     // U+21A9 U+FE0F, u-turn
    | Cycle           // U+1F504, roundabout
    | Flag            // U+1F3C1, arrival
    | Pin             // U+1F4CD, default

  /** The characters of each icon as the source writes them. */
  function Glyph(icon: Icon): (glyph: string)
    ensures 1 <= |glyph| <= 2
    ensures |glyph| == 2 ==> glyph[1] == '\U{FE0F}'
    ensures glyph[0] != '\U{FE0F}'
  {
    match icon
    case ArrowUp => "\U{2B06}\U{FE0F}"
    case ArrowLeft => "\U{2B05}\U{FE0F}"
    case ArrowRight => "\U{27A1}\U{FE0F}"
    case ArrowUpRight => "\U{2197}\U{FE0F}"
    case ArrowDownRight => "\U{2198}\U{FE0F}"
    case ArrowReturn => "\U{21A9}\U{FE0F}"
    case Cycle => "\U{1F504}"
    case Flag => "\U{1F3C1}"
    case Pin => "\U{1F4CD}"
  }

  /** Lower-casing of one character, restricted to the ASCII letters. */
  function LowerChar(c: char): (lower: char) {
    if 'A' <= c <= 'Z' then (c as int + 32) as char else c
  }

  /** `String.prototype.toLowerCase`, restricted to the ASCII letters. */
  function ToLower(s: string): (r: string)
    ensures |r| == |s|
    ensures forall i :: 0 <= i < |s| ==> r[i] == LowerChar(s[i])
  {
    if s == [] then [] else [LowerChar(s[0])] + ToLower(s[1..])
  }

  /** True when `s` has no upper-case ASCII letter. */
  predicate IsLower(s: string) {
    forall i :: 0 <= i < |s| ==> LowerChar(s[i]) == s[i]
  }

  /**
   * `text.includes(key)`: some suffix of `text` starts with `key`. The
   * positional reading is `ContainsIffOccurs`.
   */
  function Contains(text: string, key: string): (found: bool)
    ensures found ==> |key| <= |text|
    ensures key == [] ==> found
    ensures |key| <= |text| && text[..|key|] == key ==> found
  {
    if |key| > |text| then false
    else if text[..|key|] == key then true
    else |text| > 0 && Contains(text[1..], key)
  }

  /** `key` occurs in `text` starting at position `i`. */
  ghost predicate OccursAt(text: string, key: string, i: int) {
    0 <= i && i + |key| <= |text| && text[i..i + |key|] == key
  }

  /** `Contains` agrees with the positional definition of a substring. */
  lemma {:induction false} ContainsIffOccurs(text: string, key: string)
    ensures Contains(text, key) <==> exists i :: OccursAt(text, key, i)
  {
    if |key| > |text| {
    } else if text[..|key|] == key {
      assert OccursAt(text, key, 0);
    } else if |text| == 0 {
    } else {
      ContainsIffOccurs(text[1..], key);
      if Contains(text[1..], key) {
        var i :| OccursAt(text[1..], key, i);
        assert text[i + 1..i + 1 + |key|] == text[1..][i..i + |key|];
        assert OccursAt(text, key, i + 1);
      }
      if i :| OccursAt(text, key, i) {
        assert i != 0;
        assert text[1..][i - 1..i - 1 + |key|] == text[i..i + |key|];
        assert OccursAt(text[1..], key, i - 1);
      }
    }
  }

  /** A lower-case keyword found in the raw text is still found after lower-casing. */
  lemma {:induction false} LoweringKeepsLowerKeyword(text: string, key: string)
    requires IsLower(key)
    requires Contains(text, key)
    ensures Contains(ToLower(text), key)
  {
    ContainsIffOccurs(text, key);
    ContainsIffOccurs(ToLower(text), key);
    var i :| OccursAt(text, key, i);
    var lowered := ToLower(text);
    forall j | 0 <= j < |key|
      ensures lowered[i..i + |key|][j] == key[j]
    {
      assert text[i..i + |key|][j] == text[i + j];
    }
    assert lowered[i..i + |key|] == key;
    assert OccursAt(lowered, key, i);
  }

  /**
   * `iconFor`: the keyword cascade over the lower-cased instruction text. It
   * returns the icon of the first rule of `Rules()`, in source order, that
   * matches, and the pin when none does.
   */
  function IconFor(text: string): (icon: Icon)
    ensures icon == FirstMatch(Rules(), ToLower(text))
  {
    var t := ToLower(text);
    RulesUnfold(t);
    if Contains(t, "head") || Contains(t, "start") then ArrowUp
    else if Contains(t, "left") then ArrowLeft
    else if Contains(t, "right") then ArrowRight
    else if Contains(t, "continue") then ArrowUp
    else if Contains(t, "merge") then ArrowUpRight
    else if Contains(t, "exit") then ArrowDownRight
    else if Contains(t, "uturn") then ArrowReturn
    else if Contains(t, "roundabout") then Cycle
    else if Contains(t, "arrive") || Contains(t, "destination") then Flag
    else Pin
  }

  /** Distinct icons show distinct characters, so the two up-arrow branches are one icon. */
  lemma GlyphInjective(a: Icon, b: Icon)
    requires Glyph(a) == Glyph(b)
    ensures a == b
  {
  }

  /** One step of the cascade: any of `keys` selects `icon`. */
  datatype Rule = Rule(keys: seq<string>, icon: Icon)

  /** The cascade as a table, in the order the source tests it. */
  function Rules(): (rules: seq<Rule>) {
    [ Rule(["head", "start"], ArrowUp),
      Rule(["left"], ArrowLeft),
      Rule(["right"], ArrowRight),
      Rule(["continue"], ArrowUp),
      Rule(["merge"], ArrowUpRight),
      Rule(["exit"], ArrowDownRight),
      Rule(["uturn"], ArrowReturn),
      Rule(["roundabout"], Cycle),
      Rule(["arrive", "destination"], Flag) ]
  }

  predicate Matches(rule: Rule, t: string) {
    exists k :: k in rule.keys && Contains(t, k)
  }

  /** The icon of the first rule whose keys occur in `t`, or the pin when none does. */
  function FirstMatch(rules: seq<Rule>, t: string): (icon: Icon) {
    if rules == [] then Pin
    else if Matches(rules[0], t) then rules[0].icon
    else FirstMatch(rules[1..], t)
  }

  /** One unfolding of `FirstMatch`. */
  lemma FirstMatchStep(rules: seq<Rule>, t: string)
    requires rules != []
    ensures FirstMatch(rules, t) == if Matches(rules[0], t) then rules[0].icon else FirstMatch(rules[1..], t)
  {
  }

  lemma MatchesOne(key: string, icon: Icon, t: string)
    ensures Matches(Rule([key], icon), t) <==> Contains(t, key)
  {
  }

  lemma MatchesTwo(key1: string, key2: string, icon: Icon, t: string)
    ensures Matches(Rule([key1, key2], icon), t) <==> Contains(t, key1) || Contains(t, key2)
  {
  }

  /** `FirstMatch` over `Rules()`, read one rule at a time. */
  lemma RulesUnfold(t: string)
    ensures FirstMatch(Rules(), t) ==
      if Contains(t, "head") || Contains(t, "start") then ArrowUp else FirstMatch(Rules()[1..], t)
    ensures FirstMatch(Rules()[1..], t) == if Contains(t, "left") then ArrowLeft else FirstMatch(Rules()[2..], t)
    ensures FirstMatch(Rules()[2..], t) == if Contains(t, "right") then ArrowRight else FirstMatch(Rules()[3..], t)
    ensures FirstMatch(Rules()[3..], t) == if Contains(t, "continue") then ArrowUp else FirstMatch(Rules()[4..], t)
    ensures FirstMatch(Rules()[4..], t) == if Contains(t, "merge") then ArrowUpRight else FirstMatch(Rules()[5..], t)
    ensures FirstMatch(Rules()[5..], t) == if Contains(t, "exit") then ArrowDownRight else FirstMatch(Rules()[6..], t)
    ensures FirstMatch(Rules()[6..], t) == if Contains(t, "uturn") then ArrowReturn else FirstMatch(Rules()[7..], t)
    ensures FirstMatch(Rules()[7..], t) == if Contains(t, "roundabout") then Cycle else FirstMatch(Rules()[8..], t)
    ensures FirstMatch(Rules()[8..], t) ==
      if Contains(t, "arrive") || Contains(t, "destination") then Flag else Pin
  {
    var rs := Rules();
    MatchesTwo("head", "start", ArrowUp, t);
    MatchesOne("left", ArrowLeft, t);
    MatchesOne("right", ArrowRight, t);
    MatchesOne("continue", ArrowUp, t);
    MatchesOne("merge", ArrowUpRight, t);
    MatchesOne("exit", ArrowDownRight, t);
    MatchesOne("uturn", ArrowReturn, t);
    MatchesOne("roundabout", Cycle, t);
    MatchesTwo("arrive", "destination", Flag, t);
    FirstMatchStep(rs[8..], t);
    assert rs[8..][1..] == [];
    FirstMatchStep(rs[7..], t);
    assert rs[7..][1..] == rs[8..];
    FirstMatchStep(rs[6..], t);
    assert rs[6..][1..] == rs[7..];
    FirstMatchStep(rs[5..], t);
    assert rs[5..][1..] == rs[6..];
    FirstMatchStep(rs[4..], t);
    assert rs[4..][1..] == rs[5..];
    FirstMatchStep(rs[3..], t);
    assert rs[3..][1..] == rs[4..];
    FirstMatchStep(rs[2..], t);
    assert rs[2..][1..] == rs[3..];
    FirstMatchStep(rs[1..], t);
    assert rs[1..][1..] == rs[2..];
    FirstMatchStep(rs, t);
  }

  /** The first matching rule decides, whatever later rules would also match. */
  lemma {:induction false} FirstRuleWins(rules: seq<Rule>, t: string, j: nat)
    requires j < |rules|
    requires Matches(rules[j], t)
    requires forall m :: 0 <= m < j ==> !Matches(rules[m], t)
    ensures FirstMatch(rules, t) == rules[j].icon
  {
    if j > 0 {
      assert !Matches(rules[0], t);
      FirstRuleWins(rules[1..], t, j - 1);
    }
  }

  /** The pin is chosen exactly when no rule of a pin-free table matches. */
  lemma {:induction false} PinIffNoRuleMatches(rules: seq<Rule>, t: string)
    requires forall m :: 0 <= m < |rules| ==> rules[m].icon != Pin
    ensures FirstMatch(rules, t) == Pin <==> forall m :: 0 <= m < |rules| ==> !Matches(rules[m], t)
  {
    if rules != [] {
      PinIffNoRuleMatches(rules[1..], t);
      assert forall m :: 1 <= m < |rules| ==> rules[1..][m - 1] == rules[m];
    }
  }

  /** `iconFor` shows the pin exactly when the lower-cased text holds none of the keywords. */
  lemma IconForPinIffNoKeyword(text: string)
    ensures IconFor(text) == Pin <==> forall m :: 0 <= m < |Rules()| ==> !Matches(Rules()[m], ToLower(text))
  {
    PinIffNoRuleMatches(Rules(), ToLower(text));
  }

  /** `iconFor` ignores the case of ASCII letters. */
  lemma IconForIgnoresCase(a: string, b: string)
    requires |a| == |b|
    requires forall i :: 0 <= i < |a| ==> LowerChar(a[i]) == LowerChar(b[i])
    ensures IconFor(a) == IconFor(b)
  {
    assert ToLower(a) == ToLower(b);
  }

  /** Text naming both "start" and "left" gets the straight-ahead arrow, not the left arrow. */
  lemma StartOutranksLeft(text: string)
    requires Contains(text, "start") && Contains(text, "left")
    ensures IconFor(text) == ArrowUp
  {
    LoweringKeepsLowerKeyword(text, "start");
  }

  /** When rule `j` is the first whose keywords occur in the lower-cased text, `iconFor` returns rule `j`'s icon. */
  lemma KeywordDecides(text: string, j: nat)
    requires j < |Rules()|
    requires Matches(Rules()[j], ToLower(text))
    requires forall m :: 0 <= m < j ==> !Matches(Rules()[m], ToLower(text))
    ensures IconFor(text) == Rules()[j].icon
  {
    FirstRuleWins(Rules(), ToLower(text), j);
  }
}
