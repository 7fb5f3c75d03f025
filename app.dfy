/**
 * The state of the App component (src/App.tsx) that the two handlers update:
 * the player's name, whether a game is running, and the high-score table.
 */
module App {
  import opened Leaderboard

  /**
   * The characters String.prototype.trim removes: the ECMAScript WhiteSpace
   * (tab, vertical tab, form feed, space, no-break space, byte order mark and
   * the other space separators of Unicode category Zs) and LineTerminator
   * (line feed, carriage return, line and paragraph separators) code points.
   */
  predicate IsTrimmable(c: char)
    ensures ('a' <= c <= 'z' || 'A' <= c <= 'Z' || '0' <= c <= '9') ==> !IsTrimmable(c)
  {
    c == '\t' || c == '\U{000B}' || c == '\U{000C}' || c == ' ' || c == '\U{00A0}' || c == '\U{FEFF}' ||
    c == '\U{1680}' || ('\U{2000}' <= c <= '\U{200A}') || c == '\U{202F}' || c == '\U{205F}' || c == '\U{3000}' ||
    c == '\n' || c == '\r' || c == '\U{2028}' || c == '\U{2029}'
  }

  /** The string without its leading trimmable characters. */
  function TrimStart(s: string): (r: string)
    ensures |r| <= |s| && r == s[|s| - |r|..]
    ensures r == [] || !IsTrimmable(r[0])
    ensures forall i :: 0 <= i < |s| - |r| ==> IsTrimmable(s[i])
  {
    if s != [] && IsTrimmable(s[0]) then TrimStart(s[1..]) else s
  }

  /** The string without its trailing trimmable characters. */
  function TrimEnd(s: string): (r: string)
    ensures |r| <= |s| && r == s[..|r|]
    ensures r == [] || !IsTrimmable(r[|r| - 1])
    ensures forall i :: |r| <= i < |s| ==> IsTrimmable(s[i])
  {
    if s != [] && IsTrimmable(s[|s| - 1]) then TrimEnd(s[..|s| - 1]) else s
  }

  /** `name.trim()`: the input without its leading and trailing trimmable characters. */
  function Trim(s: string): (r: string)
    ensures |r| <= |TrimStart(s)| <= |s|
    ensures r == [] || (!IsTrimmable(r[0]) && !IsTrimmable(r[|r| - 1]))
    ensures r == s[|s| - |TrimStart(s)|..][..|r|]
  {
    TrimEnd(TrimStart(s))
  }

  /** `name.trim()` is falsy exactly when every character of the name is trimmable (or it is empty). */
  lemma TrimEmptyIffBlank(s: string)
    ensures Trim(s) == [] <==> forall i :: 0 <= i < |s| ==> IsTrimmable(s[i])
  {
    var t := TrimStart(s);
    if Trim(s) == [] {
      assert t == [];
    }
  }

  class App {
    var playerName: string
    var gameStarted: bool
    var highScores: seq<Entry>

    /** Every table handleGameOver produces holds at most ten entries, highest score first. */
    ghost predicate Valid()
      reads this
    {
      |highScores| <= MaxEntries && SortedByScore(highScores)
    }

    constructor ()
      ensures Valid()
      ensures playerName == "" && !gameStarted && highScores == []
    {
      playerName := "";
      gameStarted := false;
      highScores := [];
    }

    /** handleStartGame: a name with a non-blank character is stored and the game starts; otherwise nothing changes. */
    method HandleStartGame(name: string)
      modifies this
      ensures (exists i :: 0 <= i < |name| && !IsTrimmable(name[i])) ==> playerName == name && gameStarted
      ensures (forall i :: 0 <= i < |name| ==> IsTrimmable(name[i])) ==>
        playerName == old(playerName) && gameStarted == old(gameStarted)
      ensures highScores == old(highScores)
    {
      TrimEmptyIffBlank(name);
      if Trim(name) != [] {
        playerName := name;
        gameStarted := true;
      }
    }

    /** handleGameOver: the entry {playerName, score} goes into the table, which keeps its best ten. */
    method HandleGameOver(score: int)
      requires Valid()
      modifies this
      ensures Valid()
      ensures highScores == TopScores(old(highScores), Entry(playerName, score))
      ensures playerName == old(playerName) && gameStarted == old(gameStarted)
    {
      highScores := TopScores(highScores, Entry(playerName, score));
    }
  }
}
