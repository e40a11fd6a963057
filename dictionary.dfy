/** The instruction table interface (converters/Dictionary.kt): a list of
    templates and the case-insensitive lookup by mnemonic. */
module Dictionaries {
  import opened Text
  import opened Commands

  /** `getCommandsWithName(name)`: the templates whose mnemonic equals
      `name` ignoring case, in table order. */
  function GetCommandsWithName(commands: seq<AbstractCommand>, name: string): (r: seq<AbstractCommand>)
    ensures forall t :: t in r <==> t in commands && EqualsIgnoreCase(t.name, name)
    ensures |r| <= |commands|
  {
    if commands == [] then []
    else (if EqualsIgnoreCase(commands[0].name, name) then [commands[0]] else [])
         + GetCommandsWithName(commands[1..], name)
  }

  /** `r` is `s` with some elements left out, the rest in their order. */
  predicate IsSubsequence<T(==)>(r: seq<T>, s: seq<T>)
    decreases |s|
  {
    if r == [] then true
    else if s == [] then false
    else (r[0] == s[0] && IsSubsequence(r[1..], s[1..])) || IsSubsequence(r, s[1..])
  }

  /** The lookup keeps the table order. */
  lemma {:induction false} LookupKeepsOrder(commands: seq<AbstractCommand>, name: string)
    ensures IsSubsequence(GetCommandsWithName(commands, name), commands)
  {
    if commands != [] {
      var r := GetCommandsWithName(commands, name);
      LookupKeepsOrder(commands[1..], name);
      if EqualsIgnoreCase(commands[0].name, name) {
        assert r[0] == commands[0] && r[1..] == GetCommandsWithName(commands[1..], name);
      } else {
        assert r == GetCommandsWithName(commands[1..], name);
      }
    }
  }

  /** Looking up a concatenation of tables concatenates the lookups. */
  lemma {:induction false} LookupAppend(a: seq<AbstractCommand>, b: seq<AbstractCommand>, name: string)
    ensures GetCommandsWithName(a + b, name) == GetCommandsWithName(a, name) + GetCommandsWithName(b, name)
  {
    if a == [] {
      assert a + b == b;
    } else {
      assert (a + b)[0] == a[0] && (a + b)[1..] == a[1..] + b;
      LookupAppend(a[1..], b, name);
    }
  }

  lemma UpperCharIdempotent(c: char)
    ensures ToUpperChar(ToUpperChar(c)) == ToUpperChar(c)
  {
  }

  /** The case of the name asked for does not matter. */
  lemma {:induction false} LookupIgnoresCase(commands: seq<AbstractCommand>, name: string)
    ensures GetCommandsWithName(commands, ToUpper(name)) == GetCommandsWithName(commands, name)
  {
    if commands != [] {
      LookupIgnoresCase(commands[1..], name);
      var n := commands[0].name;
      forall i | 0 <= i < |name| ensures ToUpperChar(ToUpper(name)[i]) == ToUpperChar(name[i]) {
        UpperCharIdempotent(name[i]);
      }
      assert EqualsIgnoreCase(n, ToUpper(name)) <==> EqualsIgnoreCase(n, name);
    }
  }
}
