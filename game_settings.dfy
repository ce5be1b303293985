/**
 * The game-settings form: the number of holes, the name being typed and the
 * roster. Adding a player trims the typed name, refuses an empty name and a
 * full roster (MAX_PLAYERS names); removing a player drops one position.
 */
module GameSettings {

  /** The most players a roster may hold. */
  const MAX_PLAYERS: int := 10

  /** The hole count the form starts with. */
  const DEFAULT_HOLES: int := 18

  // ---------------------------------------------------------------------
  // Trimming a name
  // ---------------------------------------------------------------------

  /**
   * The characters a JavaScript trim removes: the ECMAScript white-space
   * characters (tab, vertical tab, form feed, space, no-break space, the
   * byte-order mark and the Unicode space separators) and the line
   * terminators (line feed, carriage return, line and paragraph separator).
   * Among the ASCII characters these are the space and tab through carriage return.
   */
  function IsTrimmable(c: char): (trimmable: bool)
    ensures c as int < 0x80 ==> (trimmable <==> c == ' ' || '\t' <= c <= '\r')
  {
    var n := c as int;
    n == 0x09 || n == 0x0A || n == 0x0B || n == 0x0C || n == 0x0D || n == 0x20
    || n == 0xA0 || n == 0x1680 || (0x2000 <= n <= 0x200A)
    || n == 0x2028 || n == 0x2029 || n == 0x202F || n == 0x205F
    || n == 0x3000 || n == 0xFEFF
  }

  /** Every character of `s` from position `lo` up to (not including) `hi` is one a trim removes. */
  ghost predicate TrimmableBetween(s: string, lo: int, hi: int) {
    forall k :: lo <= k < hi && 0 <= k < |s| ==> IsTrimmable(s[k])
  }

  /** How many characters at the start of `s` a trim removes. */
  function LeadingTrimmable(s: string): (n: nat)
    ensures n <= |s|
    ensures TrimmableBetween(s, 0, n)
    ensures n < |s| ==> !IsTrimmable(s[n])
  {
    if |s| > 0 && IsTrimmable(s[0]) then
      var n := 1 + LeadingTrimmable(s[1..]);
      assert forall k :: 1 <= k < n ==> s[k] == s[1..][k - 1];
      n
    else 0
  }

  /** How many characters at the end of `s` a trim removes. */
  function TrailingTrimmable(s: string): (n: nat)
    ensures n <= |s|
    ensures TrimmableBetween(s, |s| - n, |s|)
    ensures n < |s| ==> !IsTrimmable(s[|s| - n - 1])
  {
    if |s| > 0 && IsTrimmable(s[|s| - 1]) then
      var n := 1 + TrailingTrimmable(s[..|s| - 1]);
      assert forall k :: |s| - n <= k < |s| - 1 ==> s[k] == s[..|s| - 1][k];
      n
    else 0
  }

  /**
   * `s` without leading and trailing trimmable characters: the part of `s`
   * after its leading trimmable characters, which neither starts nor ends
   * with a trimmable character, everything cut off after it being
   * trimmable. It is empty exactly when `s` is all trimmable characters.
   */
  function Trim(s: string): (r: string)
    ensures LeadingTrimmable(s) + |r| <= |s|
    ensures r == s[LeadingTrimmable(s)..LeadingTrimmable(s) + |r|]
    ensures TrimmableBetween(s, LeadingTrimmable(s) + |r|, |s|)
    ensures r != [] ==> !IsTrimmable(r[0]) && !IsTrimmable(r[|r| - 1])
    ensures r == [] <==> TrimmableBetween(s, 0, |s|)
  {
    var i := LeadingTrimmable(s);
    if i == |s| then []
    else
      var j := |s| - TrailingTrimmable(s);
      assert i < j;
      s[i..j]
  }

  /** Trimming is idempotent. */
  lemma TrimIdempotent(s: string)
    ensures Trim(Trim(s)) == Trim(s)
  {
    var r := Trim(s);
    if r != [] {
      assert LeadingTrimmable(r) == 0;
      assert TrailingTrimmable(r) == 0;
      assert r[0..|r|] == r;
    }
  }

  // ---------------------------------------------------------------------
  // Roster updates
  // ---------------------------------------------------------------------

  /**
   * A player can be added when the trimmed name is not empty and the roster
   * is not full: exactly when the typed text holds a character a trim keeps
   * and fewer than MAX_PLAYERS names are on the roster.
   */
  function CanAdd(players: seq<string>, playerName: string): (ok: bool)
    ensures ok <==> |players| < MAX_PLAYERS
                    && exists k :: 0 <= k < |playerName| && !IsTrimmable(playerName[k])
  {
    Trim(playerName) != [] && |players| < MAX_PLAYERS
  }

  /**
   * The roster after adding the typed name: the trimmed name appended at
   * the end when it can be added, the roster unchanged otherwise.
   */
  function AddedPlayer(players: seq<string>, playerName: string): (r: seq<string>)
    ensures |players| <= MAX_PLAYERS ==> |r| <= MAX_PLAYERS
    ensures CanAdd(players, playerName) ==>
      && |r| == |players| + 1
      && r[..|players|] == players
      && r[|players|] == Trim(playerName)
    ensures !CanAdd(players, playerName) ==> r == players
  {
    if CanAdd(players, playerName) then players + [Trim(playerName)] else players
  }

  /**
   * The roster without the entry at position `index`, the others kept in
   * order: it keeps each entry whose position differs from `index`.
   */
  function RemovedAt(players: seq<string>, index: int): (r: seq<string>)
    ensures 0 <= index < |players| ==> r == players[..index] + players[index + 1..]
    ensures !(0 <= index < |players|) ==> r == players
    ensures |r| <= |players|
  {
    if |players| == 0 then []
    else (if index == 0 then [] else [players[0]]) + RemovedAt(players[1..], index - 1)
  }

  /** One edit of the roster, as made in the form. */
  datatype RosterEdit = Add(playerName: string) | Remove(index: int)

  /** The roster after a sequence of edits, the first edit applied first. */
  function ApplyEdits(players: seq<string>, edits: seq<RosterEdit>): seq<string>
    decreases |edits|
  {
    if |edits| == 0 then players
    else
      var next := match edits[0]
        case Add(name) => AddedPlayer(players, name)
        case Remove(i) => RemovedAt(players, i);
      ApplyEdits(next, edits[1..])
  }

  /** Starting from at most MAX_PLAYERS names, no sequence of edits makes the roster longer. */
  lemma {:induction false} EditsKeepCap(players: seq<string>, edits: seq<RosterEdit>)
    requires |players| <= MAX_PLAYERS
    ensures |ApplyEdits(players, edits)| <= MAX_PLAYERS
    decreases |edits|
  {
    if |edits| > 0 {
      var next := match edits[0]
        case Add(name) => AddedPlayer(players, name)
        case Remove(i) => RemovedAt(players, i);
      EditsKeepCap(next, edits[1..]);
    }
  }

  // ---------------------------------------------------------------------
  // The form
  // ---------------------------------------------------------------------

  /** The state of the settings form; the roster never holds more than MAX_PLAYERS names. */
  class SettingsForm {
    var holes: nat
    var playerName: string
    var players: seq<string>

    ghost predicate Valid()
      reads this
    {
      |players| <= MAX_PLAYERS
    }

    /** The form opens with 18 holes, no typed name and no players. */
    constructor ()
      ensures Valid()
      ensures holes == DEFAULT_HOLES && playerName == [] && players == []
    {
      holes := DEFAULT_HOLES;
      playerName := [];
      players := [];
    }

    /** The name input changed. */
    method SetPlayerName(text: string)
      modifies this
      ensures playerName == text
      ensures holes == old(holes) && players == old(players)
    {
      playerName := text;
    }

    /** The hole-count input changed. */
    method SetHoles(n: nat)
      modifies this
      ensures holes == n
      ensures playerName == old(playerName) && players == old(players)
    {
      holes := n;
    }

    /**
     * Add the typed name: when it can be added the trimmed name is appended
     * and the input cleared; otherwise nothing changes.
     */
    method AddPlayer()
      requires Valid()
      modifies this
      ensures Valid()
      ensures players == AddedPlayer(old(players), old(playerName))
      ensures playerName == if CanAdd(old(players), old(playerName)) then [] else old(playerName)
      ensures holes == old(holes)
      ensures CanAdd(old(players), old(playerName)) ==> !StartDisabled()
    {
      if !CanAdd(players, playerName) {
        return;
      }
      players := players + [Trim(playerName)];
      playerName := [];
    }

    /** Remove the player at `index`; an index outside the roster changes nothing. */
    method RemovePlayer(index: int)
      requires Valid()
      modifies this
      ensures Valid()
      ensures players == RemovedAt(old(players), index)
      ensures |players| == if 0 <= index < |old(players)| then |old(players)| - 1 else |old(players)|
      ensures playerName == old(playerName) && holes == old(holes)
      ensures StartDisabled() <==> (|old(players)| == 0 || (|old(players)| == 1 && index == 0))
    {
      players := RemovedAt(players, index);
    }

    /**
     * The Start New Game button is disabled exactly when the roster is empty;
     * then a player can still be added, so the form is never stuck.
     */
    function StartDisabled(): (disabled: bool)
      reads this
      ensures disabled <==> players == []
      ensures disabled ==> !AddDisabled()
      ensures disabled ==> forall name :: CanAdd(players, name) <==> Trim(name) != []
    {
      |players| == 0
    }

    /** The name input and the Add button are disabled once the roster is full. */
    function AddDisabled(): (disabled: bool)
      reads this
      ensures !disabled ==> |players| < MAX_PLAYERS
      ensures disabled ==> forall name :: !CanAdd(players, name)
    {
      |players| >= MAX_PLAYERS
    }
  }
}
