/** What the pattern does on two concrete log lines: a server notice in the
    shape ZNC logs, and the same notice with two spaces before the stars,
    which the pattern rejects because it allows exactly one whitespace
    character there. The lines are spelled out piece by piece. */
module SnoteSamples {

  import opened SnotePattern

  const KillFields: Fields := Fields("12:00:00", "irc.example", "KILL", "user banned")

  /** `[12:00:00] -irc.example- *** KILL: user banned`, spelled through
      `Assemble` from its four captures and four single spaces. */
  const Kill: string := Assemble(KillFields, ' ', ' ', ' ', ' ')

  /** `[12:00:00] -irc.example-  *** KILL: user banned` */
  const KillTwoSpaces: string := "[12:00:00]" + " -" + "irc.example" + "-  ***" + " KILL:" + " user" + " banned"

  /** The notice is found at the start of the line, covers all of it, and
      gives back its four parts. */
  lemma KillMatches()
    ensures Find(Kill) == Some(Match(0, |Kill|, KillFields))
  {
    var t := KillFields.time;
    assert TimeGroups(t[6..], 1);
    assert TimeGroups(t[3..], 2);
    assert TimeGroups(t, 3);
    ParseAssembled(KillFields, ' ', ' ', ' ', ' ');
  }

  /** Where the brackets, the dashes and the spaces of the second line are. */
  lemma TwoSpacesLayout()
    ensures forall k :: 0 <= k < |KillTwoSpaces| && KillTwoSpaces[k] == ']' ==> k == 9
    ensures forall k :: 0 < k < 9 ==> KillTwoSpaces[k] != '['
    ensures forall k :: 12 <= k < 25 && KillTwoSpaces[k] == '-' ==> k == 23
    ensures KillTwoSpaces[0] == '[' && IsSpace(KillTwoSpaces[24]) && KillTwoSpaces[25] != '*'
  {
  }

  /** A second space before `***` leaves no place where the pattern fits. */
  lemma TwoSpacesDoNotMatch()
    ensures !MatchString(KillTwoSpaces)
  {
    var s := KillTwoSpaces;
    MatchStringIff(s);
    TwoSpacesLayout();
    forall i: nat, c: Cuts | i <= |s|
      ensures !ShapeAt(s, i, c)
    {
    }
  }
}
