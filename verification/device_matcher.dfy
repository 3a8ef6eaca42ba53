/** Recognising the Grassy Core among the advertisements seen while scanning. */
module DeviceMatcher {

  /** The advertised name of the peripheral whose clock is set. */
  const TargetName: string := "GrassyCore C"

  /** True when an advertised name selects the peripheral: the names must be
      equal character for character. */
  function Matches(name: string): (b: bool)
    ensures b <==> |name| == |TargetName| && forall i :: 0 <= i < |name| ==> name[i] == TargetName[i]
  {
    name == TargetName
  }

  /** ASCII lower-casing, to state what a case variant is. */
  function LowerChar(ch: char): char {
    if 'A' <= ch <= 'Z' then (ch as int + 32) as char else ch
  }

  function Lower(s: string): string {
    seq(|s|, i requires 0 <= i < |s| => LowerChar(s[i]))
  }

  /** No proper prefix or extension of the target name selects the peripheral. */
  lemma PrefixesDoNotMatch(name: string)
    requires name < TargetName || TargetName < name
    ensures !Matches(name)
  {
  }

  /** ASCII upper-casing, the other direction of a case variant. */
  function UpperChar(ch: char): char {
    if 'a' <= ch <= 'z' then (ch as int - 32) as char else ch
  }

  function Upper(s: string): string {
    seq(|s|, i requires 0 <= i < |s| => UpperChar(s[i]))
  }

  /** Lower-casing after upper-casing is plain lower-casing, so a spelling and
      its upper-cased form are case variants of each other. */
  lemma LowerAfterUpper(s: string)
    ensures Lower(Upper(s)) == Lower(s)
  {
    assert forall i :: 0 <= i < |s| ==> Lower(Upper(s))[i] == LowerChar(UpperChar(s[i]));
  }

  /** No case variant of the target name other than the name itself selects
      the peripheral; the all-lower-case and all-upper-case spellings are
      such variants. */
  lemma CaseVariantsDoNotMatch()
    ensures forall name :: Lower(name) == Lower(TargetName) && name != TargetName ==> !Matches(name)
    ensures Lower(TargetName) != TargetName && !Matches(Lower(TargetName))
    ensures Upper(TargetName) != TargetName && !Matches(Upper(TargetName))
    ensures Lower(Upper(TargetName)) == Lower(TargetName) && Lower(Lower(TargetName)) == Lower(TargetName)
  {
    assert Lower(TargetName)[0] == 'g';
    assert Upper(TargetName)[1] == 'R';
    LowerAfterUpper(TargetName);
    assert Lower(Lower(TargetName)) == Lower(TargetName);
  }
}
