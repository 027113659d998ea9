/**
 * The keybinding table of df_browse/keybindings.py: which keys run which browser command,
 * the rule that no key is bound to two commands, the start-up duplicate report, the copy
 * handed out by `keybs`, and the hints shown when a command fails.
 */
module Keybindings {
  import opened Wrappers

  /** One entry of the `_commands` dictionary: a command and the keys bound to it, in order. */
  datatype Binding = Binding(command: string, keys: seq<string>)

  /** The table as the module defines it, in the dictionary's insertion order. */
  const DefaultCommands: seq<Binding> := [
    Binding("merge", ["m"]),
    Binding("hide column", ["H"]),
    Binding("search down", ["ctrl s"]),
    Binding("search up", ["ctrl r"]),
    Binding("sort ascending", ["s"]),
    Binding("sort descending", ["S"]),
    Binding("browse right", ["right", "l"]),
    Binding("browse left", ["left", "h"]),
    Binding("browse up", ["up", "k"]),
    Binding("browse down", ["down", "j"]),
    Binding("undo", ["u", "ctrl /"]),
    Binding("quit", ["q"]),
    Binding("query", ["y"]),
    Binding("page up", ["page up"]),
    Binding("page down", ["page down"]),
    Binding("help", ["?"]),
    Binding("shift column left", [",", "<"]),
    Binding("shift column right", [".", ">"]),
    Binding("increase column width", ["=", "+"]),
    Binding("decrease column width", ["-"]),
    Binding("jump to last row", ["meta >"]),
    Binding("jump to first row", ["meta <"]),
    Binding("jump to numeric column", ["1", "2", "3", "4", "5", "6", "7", "8", "9", "0"]),
    Binding("jump to last column", ["ctrl e"]),
    Binding("jump to first column", ["ctrl a"]),
    Binding("name current table browser", ["n"]),
    Binding("switch to table browser", ["b"]),
    Binding("jump to column", ["c"]),
    Binding("jump to row", ["r"])
  ]

  /** The hints of `_exception_hints`. */
  const ExceptionHints: map<string, string> := map[
    "jump to column" := "Could not find column {}",
    "jump to row" := "Rows may only be indexed by integer or floating point number, and must not be out of range."
  ]

  /** `cmd_hint`: the hint for the two commands that have one, a generic message for any other. */
  function CmdHint(cmd: string): (r: string)
    ensures cmd == "jump to column" ==> r == "Could not find column {}"
    ensures cmd == "jump to row" ==> r == "Rows may only be indexed by integer or floating point number, and must not be out of range."
    ensures cmd != "jump to column" && cmd != "jump to row" ==> r == "Command could not be executed."
  {
    if cmd in ExceptionHints then ExceptionHints[cmd] else "Command could not be executed."
  }

  /** The dictionary's keys are distinct. */
  predicate UniqueCommands(cs: seq<Binding>) {
    forall i, j :: 0 <= i < j < |cs| ==> cs[i].command != cs[j].command
  }

  /** No key bound to one command is bound to another. */
  predicate ShadowFree(cs: seq<Binding>) {
    forall i, j, k :: 0 <= i < |cs| && 0 <= j < |cs| && i != j && 0 <= k < |cs[i].keys| ==> cs[i].keys[k] !in cs[j].keys
  }

  /** No key occurs twice in the table, within one command's list or across two. */
  predicate NoRepeatedKey(cs: seq<Binding>) {
    forall i, k, j, m :: 0 <= i < |cs| && 0 <= k < |cs[i].keys| && 0 <= j < |cs| && 0 <= m < |cs[j].keys| && (i, k) != (j, m)
      ==> cs[i].keys[k] != cs[j].keys[m]
  }

  /** Every key of the table, command by command: the order the start-up check visits them in. */
  function Flat(cs: seq<Binding>): seq<string> {
    if cs == [] then [] else Flat(cs[..|cs| - 1]) + cs[|cs| - 1].keys
  }

  predicate Distinct(s: seq<string>) {
    forall a, b :: 0 <= a < b < |s| ==> s[a] != s[b]
  }

  /** The key is bound to some command of the table. */
  ghost predicate Bound(cs: seq<Binding>, key: string) {
    exists i, k :: 0 <= i < |cs| && 0 <= k < |cs[i].keys| && cs[i].keys[k] == key
  }

  /** Each key of the flat list is bound in the table. */
  lemma {:induction false} FlatBound(cs: seq<Binding>)
    ensures forall key :: key in Flat(cs) ==> Bound(cs, key)
  {
    if cs != [] {
      var init := cs[..|cs| - 1];
      FlatBound(init);
      forall key | key in Flat(cs)
        ensures Bound(cs, key)
      {
        if key in Flat(init) {
          var i, k :| 0 <= i < |init| && 0 <= k < |init[i].keys| && init[i].keys[k] == key;
          assert cs[i] == init[i];
        } else {
          var i := |cs| - 1;
          assert key in cs[i].keys;
          var k :| 0 <= k < |cs[i].keys| && cs[i].keys[k] == key;
        }
      }
    }
  }

  /** A table with no repeated key visits every key once: the flat list has no duplicate. */
  lemma {:induction false} NoRepeatedKeyFlatDistinct(cs: seq<Binding>)
    requires NoRepeatedKey(cs)
    ensures Distinct(Flat(cs))
  {
    if cs != [] {
      var init := cs[..|cs| - 1];
      var last := cs[|cs| - 1];
      assert NoRepeatedKey(init) by {
        forall i, k, j, m | 0 <= i < |init| && 0 <= k < |init[i].keys| && 0 <= j < |init| && 0 <= m < |init[j].keys| && (i, k) != (j, m)
          ensures init[i].keys[k] != init[j].keys[m]
        {
          assert init[i] == cs[i] && init[j] == cs[j];
        }
      }
      NoRepeatedKeyFlatDistinct(init);
      FlatBound(init);
      var f := Flat(init);
      forall a, b | 0 <= a < b < |Flat(cs)|
        ensures Flat(cs)[a] != Flat(cs)[b]
      {
        if b >= |f| {
          var m := b - |f|;
          assert Flat(cs)[b] == cs[|cs| - 1].keys[m];
          if a < |f| {
            assert f[a] in f;
            var i, k :| 0 <= i < |init| && 0 <= k < |init[i].keys| && init[i].keys[k] == f[a];
            assert Flat(cs)[a] == cs[i].keys[k];
          } else {
            assert Flat(cs)[a] == cs[|cs| - 1].keys[a - |f|];
          }
        }
      }
    }
  }

  /**
   * A summary of a name that tells the default keys apart, and tells the default command
   * names apart: its length and its first and last characters.
   */
  function Signature(key: string): (int, char, char) {
    if key == [] then (0, ' ', ' ') else (|key|, key[0], key[|key| - 1])
  }

  /** Where each default key sits in `DefaultCommands`: (entry, position in its list), told apart by signature. */
  function DefaultKeyPosition(key: string): (int, int) {
    if Signature(key) == (1, 'm', 'm') then (0, 0)
    else if Signature(key) == (1, 'H', 'H') then (1, 0)
    else if Signature(key) == (6, 'c', 's') then (2, 0)
    else if Signature(key) == (6, 'c', 'r') then (3, 0)
    else if Signature(key) == (1, 's', 's') then (4, 0)
    else if Signature(key) == (1, 'S', 'S') then (5, 0)
    else if Signature(key) == (5, 'r', 't') then (6, 0)
    else if Signature(key) == (1, 'l', 'l') then (6, 1)
    else if Signature(key) == (4, 'l', 't') then (7, 0)
    else if Signature(key) == (1, 'h', 'h') then (7, 1)
    else if Signature(key) == (2, 'u', 'p') then (8, 0)
    else if Signature(key) == (1, 'k', 'k') then (8, 1)
    else if Signature(key) == (4, 'd', 'n') then (9, 0)
    else if Signature(key) == (1, 'j', 'j') then (9, 1)
    else if Signature(key) == (1, 'u', 'u') then (10, 0)
    else if Signature(key) == (6, 'c', '/') then (10, 1)
    else if Signature(key) == (1, 'q', 'q') then (11, 0)
    else if Signature(key) == (1, 'y', 'y') then (12, 0)
    else if Signature(key) == (7, 'p', 'p') then (13, 0)
    else if Signature(key) == (9, 'p', 'n') then (14, 0)
    else if Signature(key) == (1, '?', '?') then (15, 0)
    else if Signature(key) == (1, ',', ',') then (16, 0)
    else if Signature(key) == (1, '<', '<') then (16, 1)
    else if Signature(key) == (1, '.', '.') then (17, 0)
    else if Signature(key) == (1, '>', '>') then (17, 1)
    else if Signature(key) == (1, '=', '=') then (18, 0)
    else if Signature(key) == (1, '+', '+') then (18, 1)
    else if Signature(key) == (1, '-', '-') then (19, 0)
    else if Signature(key) == (6, 'm', '>') then (20, 0)
    else if Signature(key) == (6, 'm', '<') then (21, 0)
    else if Signature(key) == (1, '1', '1') then (22, 0)
    else if Signature(key) == (1, '2', '2') then (22, 1)
    else if Signature(key) == (1, '3', '3') then (22, 2)
    else if Signature(key) == (1, '4', '4') then (22, 3)
    else if Signature(key) == (1, '5', '5') then (22, 4)
    else if Signature(key) == (1, '6', '6') then (22, 5)
    else if Signature(key) == (1, '7', '7') then (22, 6)
    else if Signature(key) == (1, '8', '8') then (22, 7)
    else if Signature(key) == (1, '9', '9') then (22, 8)
    else if Signature(key) == (1, '0', '0') then (22, 9)
    else if Signature(key) == (6, 'c', 'e') then (23, 0)
    else if Signature(key) == (6, 'c', 'a') then (24, 0)
    else if Signature(key) == (1, 'n', 'n') then (25, 0)
    else if Signature(key) == (1, 'b', 'b') then (26, 0)
    else if Signature(key) == (1, 'c', 'c') then (27, 0)
    else if Signature(key) == (1, 'r', 'r') then (28, 0)
    else (-1, -1)
  }

  /** Which entry of `DefaultCommands` each default command name is, told apart by signature. */
  function DefaultCommandPosition(name: string): int {
    if Signature(name) == (5, 'm', 'e') then 0
    else if Signature(name) == (11, 'h', 'n') then 1
    else if Signature(name) == (11, 's', 'n') then 2
    else if Signature(name) == (9, 's', 'p') then 3
    else if Signature(name) == (14, 's', 'g') then 4
    else if Signature(name) == (15, 's', 'g') then 5
    else if Signature(name) == (12, 'b', 't') then 6
    else if Signature(name) == (11, 'b', 't') then 7
    else if Signature(name) == (9, 'b', 'p') then 8
    else if Signature(name) == (11, 'b', 'n') then 9
    else if Signature(name) == (4, 'u', 'o') then 10
    else if Signature(name) == (4, 'q', 't') then 11
    else if Signature(name) == (5, 'q', 'y') then 12
    else if Signature(name) == (7, 'p', 'p') then 13
    else if Signature(name) == (9, 'p', 'n') then 14
    else if Signature(name) == (4, 'h', 'p') then 15
    else if Signature(name) == (17, 's', 't') then 16
    else if Signature(name) == (18, 's', 't') then 17
    else if Signature(name) == (21, 'i', 'h') then 18
    else if Signature(name) == (21, 'd', 'h') then 19
    else if Signature(name) == (16, 'j', 'w') then 20
    else if Signature(name) == (17, 'j', 'w') then 21
    else if Signature(name) == (22, 'j', 'n') then 22
    else if Signature(name) == (19, 'j', 'n') then 23
    else if Signature(name) == (20, 'j', 'n') then 24
    else if Signature(name) == (26, 'n', 'r') then 25
    else if Signature(name) == (23, 's', 'r') then 26
    else if Signature(name) == (14, 'j', 'n') then 27
    else if Signature(name) == (11, 'j', 'w') then 28
    else -1
  }

  lemma KeyPositions0(i: int, k: int)
    requires 0 <= i < 8 && 0 <= k < |DefaultCommands[i].keys|
    ensures DefaultKeyPosition(DefaultCommands[i].keys[k]) == (i, k)
  {
  }

  lemma KeyPositions8(i: int, k: int)
    requires 8 <= i < 12 && 0 <= k < |DefaultCommands[i].keys|
    ensures DefaultKeyPosition(DefaultCommands[i].keys[k]) == (i, k)
  {
  }

  lemma KeyPositions12(i: int, k: int)
    requires 12 <= i < 16 && 0 <= k < |DefaultCommands[i].keys|
    ensures DefaultKeyPosition(DefaultCommands[i].keys[k]) == (i, k)
  {
  }

  lemma KeyPositions16(i: int, k: int)
    requires 16 <= i < 22 && 0 <= k < |DefaultCommands[i].keys|
    ensures DefaultKeyPosition(DefaultCommands[i].keys[k]) == (i, k)
  {
  }

  lemma KeyPositions22K0(i: int, k: int)
    requires i == 22 && 0 <= k < 5
    ensures DefaultKeyPosition(DefaultCommands[i].keys[k]) == (i, k)
  {
  }

  lemma KeyPositions22K5(i: int, k: int)
    requires i == 22 && 5 <= k < 10
    ensures DefaultKeyPosition(DefaultCommands[i].keys[k]) == (i, k)
  {
  }

  lemma KeyPositions23(i: int, k: int)
    requires 23 <= i < 29 && 0 <= k < |DefaultCommands[i].keys|
    ensures DefaultKeyPosition(DefaultCommands[i].keys[k]) == (i, k)
  {
  }

  lemma CommandPositions0(i: int)
    requires 0 <= i < 5
    ensures DefaultCommandPosition(DefaultCommands[i].command) == i
  {
  }

  lemma CommandPositions5(i: int)
    requires 5 <= i < 10
    ensures DefaultCommandPosition(DefaultCommands[i].command) == i
  {
  }

  lemma CommandPositions10(i: int)
    requires 10 <= i < 15
    ensures DefaultCommandPosition(DefaultCommands[i].command) == i
  {
  }

  lemma CommandPositions15(i: int)
    requires 15 <= i < 20
    ensures DefaultCommandPosition(DefaultCommands[i].command) == i
  {
  }

  lemma CommandPositions20(i: int)
    requires 20 <= i < 25
    ensures DefaultCommandPosition(DefaultCommands[i].command) == i
  {
  }

  lemma CommandPositions25(i: int)
    requires 25 <= i < 29
    ensures DefaultCommandPosition(DefaultCommands[i].command) == i
  {
  }

  lemma DefaultKeyPositions(i: int, k: int)
    requires 0 <= i < |DefaultCommands| && 0 <= k < |DefaultCommands[i].keys|
    ensures DefaultKeyPosition(DefaultCommands[i].keys[k]) == (i, k)
  {
    if i < 8 { KeyPositions0(i, k); }
    else if i < 12 { KeyPositions8(i, k); }
    else if i < 16 { KeyPositions12(i, k); }
    else if i < 22 { KeyPositions16(i, k); }
    else if i == 22 && k < 5 { KeyPositions22K0(i, k); }
    else if i == 22 { KeyPositions22K5(i, k); }
    else { KeyPositions23(i, k); }
  }

  lemma DefaultCommandPositions(i: int)
    requires 0 <= i < |DefaultCommands|
    ensures DefaultCommandPosition(DefaultCommands[i].command) == i
  {
    if i < 5 { CommandPositions0(i); }
    else if i < 10 { CommandPositions5(i); }
    else if i < 15 { CommandPositions10(i); }
    else if i < 20 { CommandPositions15(i); }
    else if i < 25 { CommandPositions20(i); }
    else { CommandPositions25(i); }
  }

  /** The table the module starts with: distinct commands, no key twice, so no key shadows another. */
  lemma DefaultsValid()
    ensures UniqueCommands(DefaultCommands) && NoRepeatedKey(DefaultCommands) && ShadowFree(DefaultCommands)
  {
    var cs := DefaultCommands;
    forall i, j | 0 <= i < j < |cs|
      ensures cs[i].command != cs[j].command
    {
      DefaultCommandPositions(i);
      DefaultCommandPositions(j);
    }
    forall i, k, j, m | 0 <= i < |cs| && 0 <= k < |cs[i].keys| && 0 <= j < |cs| && 0 <= m < |cs[j].keys| && (i, k) != (j, m)
      ensures cs[i].keys[k] != cs[j].keys[m]
    {
      DefaultKeyPositions(i, k);
      DefaultKeyPositions(j, m);
    }
  }

  /** The position of the command's entry, if the dictionary has the command. */
  function IndexOf(cs: seq<Binding>, command: string): (r: Option<nat>)
    ensures r.None? <==> forall i :: 0 <= i < |cs| ==> cs[i].command != command
    ensures r.Some? ==> r.value < |cs| && cs[r.value].command == command
    ensures r.Some? ==> forall i :: 0 <= i < r.value ==> cs[i].command != command
  {
    if cs == [] then None
    else if cs[0].command == command then Some(0)
    else match IndexOf(cs[1..], command)
      case None => None
      case Some(i) => Some(i + 1)
  }

  /** `_commands[command]`, or None where it raises `KeyError`. */
  function Lookup(cs: seq<Binding>, command: string): Option<seq<string>> {
    match IndexOf(cs, command)
    case None => None
    case Some(i) => Some(cs[i].keys)
  }

  /** `_commands[command] = keys`: the entry's list is replaced where it stands, or a new entry goes last. */
  function Assign(cs: seq<Binding>, command: string, keys: seq<string>): seq<Binding> {
    match IndexOf(cs, command)
    case None => cs + [Binding(command, keys)]
    case Some(i) => cs[i := Binding(command, keys)]
  }

  /** After the assignment the command has exactly the given keys. */
  lemma AssignLookupSelf(cs: seq<Binding>, command: string, keys: seq<string>)
    ensures Lookup(Assign(cs, command, keys), command) == Some(keys)
  {
    var r := Assign(cs, command, keys);
    match IndexOf(cs, command)
    case None =>
      assert forall i :: 0 <= i < |cs| ==> r[i] == cs[i];
      assert r[|cs|] == Binding(command, keys);
    case Some(p) =>
      assert forall i :: 0 <= i < p ==> r[i] == cs[i];
      assert r[p] == Binding(command, keys);
      assert IndexOf(r, command) == Some(p);
  }

  /** The assignment leaves every other command's keys as they were, and whether it is bound at all. */
  lemma AssignLookupOther(cs: seq<Binding>, command: string, keys: seq<string>, other: string)
    requires other != command
    ensures Lookup(Assign(cs, command, keys), other) == Lookup(cs, other)
  {
    var r := Assign(cs, command, keys);
    assert forall i :: 0 <= i < |cs| ==> r[i].command == cs[i].command || cs[i].command == command;
    match IndexOf(cs, other)
    case None =>
    case Some(j) =>
      assert r[j] == cs[j];
  }

  /** The entry `b` is another command's and shares a key with `keys`: binding `keys` would shadow it. */
  predicate Clashes(b: Binding, command: string, keys: seq<string>) {
    b.command != command && exists k :: 0 <= k < |b.keys| && b.keys[k] in keys
  }

  /** An assignment that shadows no other command keeps commands distinct and no key shared. */
  lemma AssignKeepsValid(cs: seq<Binding>, command: string, keys: seq<string>)
    requires UniqueCommands(cs) && ShadowFree(cs)
    requires forall j :: 0 <= j < |cs| ==> !Clashes(cs[j], command, keys)
    ensures UniqueCommands(Assign(cs, command, keys)) && ShadowFree(Assign(cs, command, keys))
  {
    var r := Assign(cs, command, keys);
    var p := match IndexOf(cs, command) case None => |cs| case Some(i) => i;
    assert |r| == |cs| || |r| == |cs| + 1;
    assert p < |r| && r[p] == Binding(command, keys);
    assert forall i :: 0 <= i < |r| && i != p ==> i < |cs| && r[i] == cs[i] && cs[i].command != command;
    forall i, j, k | 0 <= i < |r| && 0 <= j < |r| && i != j && 0 <= k < |r[i].keys|
      ensures r[i].keys[k] !in r[j].keys
    {
      if i == p {
        assert !Clashes(cs[j], command, keys);
      } else if j == p {
        assert !Clashes(cs[i], command, keys);
        assert r[i].keys[k] !in keys;
      }
    }
  }

  /** The message of the exception `set_keybindings_for_command` raises. */
  function ShadowMessage(cmd: string): string {
    "Attempting to shadow keybindings for " + cmd
  }

  /** The line the start-up check prints for a key met twice. */
  function ShadowWarning(key: string): string {
    "Attempting to shadow keybinding " + key + " already in use."
  }

  /** The reports of the start-up check over the keys `s`, in order: one for each key met before. */
  function ShadowReports(s: seq<string>): seq<string>
    decreases |s|
  {
    if s == [] then []
    else
      var init, x := s[..|s| - 1], s[|s| - 1];
      ShadowReports(init) + (if x in init then [ShadowWarning(x)] else [])
  }

  /** One more key adds a report exactly when it was met before. */
  lemma ShadowReportsSnoc(s: seq<string>, x: string)
    ensures ShadowReports(s + [x]) == ShadowReports(s) + (if x in s then [ShadowWarning(x)] else [])
  {
    assert (s + [x])[..|s|] == s;
  }

  /** The start-up check reports nothing exactly when no key repeats. */
  lemma {:induction false} ShadowReportsNone(s: seq<string>)
    ensures ShadowReports(s) == [] <==> Distinct(s)
    decreases |s|
  {
    if s != [] {
      var init, x := s[..|s| - 1], s[|s| - 1];
      assert s == init + [x];
      ShadowReportsNone(init);
      DistinctSnoc(init, x);
    }
  }

  /** Each report is for a key at a position that an earlier position already holds. */
  lemma {:induction false} ShadowReportsSound(s: seq<string>, w: string)
    requires w in ShadowReports(s)
    ensures exists a, b :: 0 <= a < b < |s| && s[a] == s[b] && w == ShadowWarning(s[b])
    decreases |s|
  {
    var n := |s|;
    var init, x := s[..n - 1], s[n - 1];
    if w in ShadowReports(init) {
      ShadowReportsSound(init, w);
      var a, b :| 0 <= a < b < |init| && init[a] == init[b] && w == ShadowWarning(init[b]);
      assert s[a] == init[a] && s[b] == init[b];
    } else {
      var a :| 0 <= a < |init| && init[a] == x;
      assert s[a] == s[n - 1];
    }
  }

  /** Every position whose key an earlier position already holds is reported. */
  lemma {:induction false} ShadowReportsComplete(s: seq<string>, a: int, b: int)
    requires 0 <= a < b < |s| && s[a] == s[b]
    ensures ShadowWarning(s[b]) in ShadowReports(s)
    decreases |s|
  {
    var n := |s|;
    var init := s[..n - 1];
    if b < n - 1 {
      assert init[a] == s[a] && init[b] == s[b];
      ShadowReportsComplete(init, a, b);
    } else {
      assert init[a] == s[b];
    }
  }

  /**
   * What the start-up check reports: nothing exactly when no key repeats; each report is for a
   * key at a position that an earlier position already holds; and every such position is reported.
   */
  lemma ShadowReportsSpec(s: seq<string>)
    ensures ShadowReports(s) == [] <==> Distinct(s)
    ensures forall w :: w in ShadowReports(s) ==>
      exists a, b :: 0 <= a < b < |s| && s[a] == s[b] && w == ShadowWarning(s[b])
    ensures forall a, b :: 0 <= a < b < |s| && s[a] == s[b] ==> ShadowWarning(s[b]) in ShadowReports(s)
  {
    ShadowReportsNone(s);
    forall w | w in ShadowReports(s)
      ensures exists a, b :: 0 <= a < b < |s| && s[a] == s[b] && w == ShadowWarning(s[b])
    {
      ShadowReportsSound(s, w);
    }
    forall a, b | 0 <= a < b < |s| && s[a] == s[b]
      ensures ShadowWarning(s[b]) in ShadowReports(s)
    {
      ShadowReportsComplete(s, a, b);
    }
  }

  /** What `set_keybindings_for_command` did: the update, or the exception whose message it carries. */
  datatype Outcome = Ok | Shadowed(message: string)

  /** A list extended by one element has no duplicate exactly when the list had none and lacked the element. */
  lemma DistinctSnoc(s: seq<string>, x: string)
    ensures Distinct(s + [x]) <==> Distinct(s) && x !in s
  {
    var t := s + [x];
    if Distinct(s) && x !in s {
      forall a, b | 0 <= a < b < |t| ensures t[a] != t[b] {
        if b == |s| {
          assert t[a] == s[a];
        } else {
          assert t[a] == s[a] && t[b] == s[b];
        }
      }
    }
    if Distinct(t) {
      assert forall a, b :: 0 <= a < b < |s| ==> t[a] == s[a] && t[b] == s[b];
      forall a | 0 <= a < |s|
        ensures s[a] != x
      {
        assert t[a] == s[a] && t[|s|] == x;
      }
    }
  }

  /**
   * The check run when the module is loaded: every key of the table, command by command, is
   * looked up among the keys met before it; one met already is reported.
   */
  method StartupWarnings(cs: seq<Binding>) returns (warnings: seq<string>)
    ensures warnings == ShadowReports(Flat(cs))
    ensures warnings == [] <==> Distinct(Flat(cs))
    ensures forall w :: w in warnings ==>
      exists a, b :: 0 <= a < b < |Flat(cs)| && Flat(cs)[a] == Flat(cs)[b] && w == ShadowWarning(Flat(cs)[b])
  {
    var seen: set<string> := {};
    warnings := [];
    for i := 0 to |cs|
      invariant forall x :: x in seen <==> x in Flat(cs[..i])
      invariant warnings == ShadowReports(Flat(cs[..i]))
    {
      assert cs[..i + 1][..i] == cs[..i];
      seen, warnings := CheckKeys(cs[i].keys, seen, Flat(cs[..i]), warnings);
    }
    assert cs[..|cs|] == cs;
    ShadowReportsSpec(Flat(cs));
  }

  /**
   * The inner loop of the start-up check, over the keys of one command: a key already in
   * `seen` (the keys met before, `visited`) is reported, and every key joins `seen`.
   */
  method CheckKeys(keybs: seq<string>, seen0: set<string>, ghost visited: seq<string>, warnings0: seq<string>)
    returns (seen: set<string>, warnings: seq<string>)
    requires forall x :: x in seen0 <==> x in visited
    requires warnings0 == ShadowReports(visited)
    ensures forall x :: x in seen <==> x in visited + keybs
    ensures warnings == ShadowReports(visited + keybs)
  {
    seen, warnings := seen0, warnings0;
    assert visited + keybs[..0] == visited;
    for k := 0 to |keybs|
      invariant forall x :: x in seen <==> x in visited + keybs[..k]
      invariant warnings == ShadowReports(visited + keybs[..k])
    {
      var keyb := keybs[k];
      ShadowReportsSnoc(visited + keybs[..k], keyb);
      if keyb in seen {
        warnings := warnings + [ShadowWarning(keyb)];
      }
      seen := seen + {keyb};
      assert visited + keybs[..k + 1] == visited + keybs[..k] + [keyb];
    }
    assert keybs[..|keybs|] == keybs;
  }

  /** The module's own table passes its start-up check without a report. */
  method StartupCheck() returns (warnings: seq<string>)
    ensures warnings == []
  {
    warnings := StartupWarnings(DefaultCommands);
    DefaultsValid();
    NoRepeatedKeyFlatDistinct(DefaultCommands);
  }

  /** The module-level `_commands` dictionary, which `set_keybindings_for_command` rebinds in place. */
  class CommandTable {
    var commands: seq<Binding>

    /** Distinct commands, and no key bound to two of them. */
    predicate Valid()
      reads this
    {
      UniqueCommands(commands) && ShadowFree(commands)
    }

    constructor()
      ensures commands == DefaultCommands && Valid()
    {
      commands := DefaultCommands;
      DefaultsValid();
    }

    /**
     * `keybs`: the command's keys, or None where the lookup raises `KeyError`. The result is a
     * value, so changing it cannot change the table.
     */
    function Keybs(command: string): (r: Option<seq<string>>)
      reads this
      ensures r.None? <==> forall i :: 0 <= i < |commands| ==> commands[i].command != command
      ensures r.Some? ==> exists i :: 0 <= i < |commands| && commands[i] == Binding(command, r.value)
    {
      Lookup(commands, command)
    }

    /**
     * `set_keybindings_for_command`: raises, naming the first other command (in table order) that
     * has one of the keys, and changes nothing; otherwise binds the command to exactly the keys.
     */
    method SetKeybindingsForCommand(command: string, keybindings: seq<string>) returns (r: Outcome)
      requires Valid()
      modifies this
      ensures r == Ok <==> forall j :: 0 <= j < |old(commands)| ==> !Clashes(old(commands)[j], command, keybindings)
      ensures r.Shadowed? ==>
        exists j :: && 0 <= j < |old(commands)| && Clashes(old(commands)[j], command, keybindings)
                    && (forall i :: 0 <= i < j ==> !Clashes(old(commands)[i], command, keybindings))
                    && r.message == ShadowMessage(old(commands)[j].command)
      ensures r.Shadowed? ==> commands == old(commands)
      ensures r == Ok ==> commands == Assign(old(commands), command, keybindings)
      ensures r == Ok ==> Keybs(command) == Some(keybindings)
      ensures r == Ok ==> forall other :: other != command ==> Keybs(other) == old(Keybs(other))
      ensures Valid()
    {
      for i := 0 to |commands|
        invariant forall j :: 0 <= j < i ==> !Clashes(commands[j], command, keybindings)
      {
        var b := commands[i];
        if b.command != command {
          for k := 0 to |b.keys|
            invariant forall m :: 0 <= m < k ==> b.keys[m] !in keybindings
          {
            if b.keys[k] in keybindings {
              return Shadowed(ShadowMessage(b.command));
            }
          }
        }
      }
      AssignKeepsValid(commands, command, keybindings);
      AssignLookupSelf(commands, command, keybindings);
      forall other | other != command
        ensures Lookup(Assign(commands, command, keybindings), other) == Lookup(commands, other)
      {
        AssignLookupOther(commands, command, keybindings, other);
      }
      commands := Assign(commands, command, keybindings);
      return Ok;
    }
  }
}
