/**
 * The credential store: `saved_passwords`, an insertion-ordered dictionary
 * from a save name to its password and recorded gesture sequence, kept here
 * as the list of names in insertion order beside a map (main.py:282-312,
 * main.py:353-355).
 */
module Credentials {
  import opened Wrappers
  import opened Features

  datatype Entry = Entry(password: string, gestures: seq<Fingerprint>)

  /** The dictionary's keys in insertion order, and its contents. */
  datatype Store = Store(names: seq<string>, entries: map<string, Entry>)

  /** Why an action on the store, or one that reads it, is refused. */
  datatype Error =
    | EmptyInput       // 'Enter both' (main.py:286-288)
    | NameExists       // 'Name exists' (main.py:290-292)
    | KeyMissing       // a lookup of a name that is not a key raises KeyError
    | IndexOutOfRange  // a row outside the key list raises IndexError
    | NoGestures       // 'No gestures' (main.py:330-332)

  predicate Distinct(names: seq<string>)
  {
    forall i, j :: 0 <= i < j < |names| ==> names[i] != names[j]
  }

  /** Keys are unique, and the name list holds exactly the map's keys. */
  ghost predicate Valid(s: Store)
  {
    Distinct(s.names) && forall n :: n in s.entries <==> n in s.names
  }

  // ---------------------------------------------------------------------------
  // Python's str.strip()
  // ---------------------------------------------------------------------------

  /** The characters Python's `str.isspace` accepts, so those `str.strip()` removes. */
  predicate IsSpace(c: char)
  {
    var k := c as int;
    (9 <= k <= 13) || (28 <= k <= 32) || k == 0x85 || k == 0xA0 || k == 0x1680
    || (0x2000 <= k <= 0x200A) || k == 0x2028 || k == 0x2029 || k == 0x202F
    || k == 0x205F || k == 0x3000
  }

  function TrimStart(s: string): (r: string)
    ensures |r| <= |s| && r == s[|s| - |r|..]
    ensures r == [] || !IsSpace(r[0])
    ensures forall k :: 0 <= k < |s| - |r| ==> IsSpace(s[k])
  {
    if s != [] && IsSpace(s[0]) then TrimStart(s[1..]) else s
  }

  function TrimEnd(s: string): (r: string)
    ensures |r| <= |s| && r == s[..|r|]
    ensures r == [] || !IsSpace(r[|r| - 1])
    ensures forall k :: |r| <= k < |s| ==> IsSpace(s[k])
  {
    if s != [] && IsSpace(s[|s| - 1]) then TrimEnd(s[..|s| - 1]) else s
  }

  /**
   * `str.strip()`: the part of `s` between a run of leading and a run of
   * trailing white space; empty exactly when `s` is all white space.
   */
  function Strip(s: string): (r: string)
    ensures exists a, b ::
      && 0 <= a <= b <= |s| && r == s[a..b]
      && (forall k :: 0 <= k < a ==> IsSpace(s[k]))
      && (forall k :: b <= k < |s| ==> IsSpace(s[k]))
    ensures r != [] ==> !IsSpace(r[0]) && !IsSpace(r[|r| - 1])
    ensures r == [] <==> forall k :: 0 <= k < |s| ==> IsSpace(s[k])
  {
    var t := TrimStart(s);
    var r := TrimEnd(t);
    var a := |s| - |t|;
    assert r == s[a..a + |r|];
    r
  }

  lemma StripIdempotent(s: string)
    ensures Strip(Strip(s)) == Strip(s)
  {
    var r := Strip(s);
    if r != [] {
      assert TrimStart(r) == r;
      assert TrimEnd(r) == r;
    }
  }

  // ---------------------------------------------------------------------------
  // Store operations
  // ---------------------------------------------------------------------------

  /**
   * The store effect of add_password (main.py:282-294): both fields are
   * stripped; an empty one, or a name already present, is refused;
   * otherwise the name is appended with its password and no gestures.
   */
  function Create(s: Store, nameText: string, passwordText: string): (r: Result<Store, Error>)
    requires Valid(s)
    ensures r == Failure(EmptyInput) <==> Strip(nameText) == [] || Strip(passwordText) == []
    ensures r == Failure(NameExists) <==>
      Strip(nameText) != [] && Strip(passwordText) != [] && Strip(nameText) in s.entries
    ensures r.Success? <==>
      Strip(nameText) != [] && Strip(passwordText) != [] && Strip(nameText) !in s.entries
    ensures r.Success? ==>
      var name := Strip(nameText);
      && Valid(r.value)
      && r.value.names == s.names + [name]
      && name !in s.entries
      && name in r.value.entries && r.value.entries[name] == Entry(Strip(passwordText), [])
      && forall m :: m != name ==>
           (m in r.value.entries <==> m in s.entries)
           && (m in s.entries ==> r.value.entries[m] == s.entries[m])
  {
    var name := Strip(nameText);
    var password := Strip(passwordText);
    if name == [] || password == [] then
      Failure(EmptyInput)
    else if name in s.entries then
      Failure(NameExists)
    else
      Success(Store(s.names + [name], s.entries[name := Entry(password, [])]))
  }

  /** `names` without `name`, the others in their order. */
  function RemoveName(names: seq<string>, name: string): (r: seq<string>)
    ensures forall m :: m in r <==> m in names && m != name
    ensures Distinct(names) ==> Distinct(r)
    ensures name !in names ==> r == names
  {
    if names == [] then []
    else if names[0] == name then RemoveName(names[1..], name)
    else
      var rest := RemoveName(names[1..], name);
      assert Distinct(names) ==> names[0] !in names[1..];
      [names[0]] + rest
  }

  /** In a list without repeats, removing the name at position k cuts out exactly that position. */
  lemma {:induction false} RemoveNameAt(names: seq<string>, k: nat)
    requires Distinct(names) && k < |names|
    ensures RemoveName(names, names[k]) == names[..k] + names[k + 1..]
  {
    var tail := names[1..];
    if k == 0 {
      assert names[0] !in tail;
    } else {
      assert tail[k - 1] == names[k];
      RemoveNameAt(tail, k - 1);
      assert names[..k] == [names[0]] + tail[..k - 1];
      assert names[k + 1..] == tail[k..];
    }
  }

  /** delete_password (main.py:303-305): drops the key if present, otherwise changes nothing. */
  function Delete(s: Store, name: string): (r: Store)
    requires Valid(s)
    ensures Valid(r)
    ensures r.entries == s.entries - {name}
    ensures r.names == RemoveName(s.names, name)
    ensures name !in s.entries ==> r == s
  {
    Store(RemoveName(s.names, name), s.entries - {name})
  }

  /** The store effect of stop_record (main.py:355): only the gestures of `name` are replaced. */
  function SetGestures(s: Store, name: string, gestures: seq<Fingerprint>): (r: Result<Store, Error>)
    requires Valid(s)
    ensures r.Failure? <==> name !in s.entries
    ensures r.Failure? ==> r.error == KeyMissing
    ensures r.Success? ==>
      && Valid(r.value)
      && r.value.names == s.names
      && r.value.entries.Keys == s.entries.Keys
      && r.value.entries[name] == Entry(s.entries[name].password, gestures)
      && forall m :: m in s.entries && m != name ==> r.value.entries[m] == s.entries[m]
  {
    if name in s.entries then
      Success(Store(s.names, s.entries[name := s.entries[name].(gestures := gestures)]))
    else
      Failure(KeyMissing)
  }

  /**
   * `list(saved_passwords.keys())[idx]` (main.py:312): the idx-th name in
   * insertion order, a negative idx counting from the end as Python does.
   */
  function NameAt(s: Store, idx: int): (r: Result<string, Error>)
    requires Valid(s)
    ensures r.Success? <==> -|s.names| <= idx < |s.names|
    ensures r.Failure? ==> r.error == IndexOutOfRange
    ensures r.Success? ==> r.value in s.entries
    ensures 0 <= idx < |s.names| ==> r == Success(s.names[idx])
    ensures -|s.names| <= idx < 0 ==> r == Success(s.names[|s.names| + idx])
  {
    if 0 <= idx < |s.names| then Success(s.names[idx])
    else if -|s.names| <= idx < 0 then Success(s.names[|s.names| + idx])
    else Failure(IndexOutOfRange)
  }

  // ---------------------------------------------------------------------------
  // Properties relating several operations
  // ---------------------------------------------------------------------------

  /** Deleting a freshly added name gives back the store as it was, order included. */
  lemma CreateThenDelete(s: Store, nameText: string, passwordText: string)
    requires Valid(s) && Strip(nameText) != [] && Strip(passwordText) != [] && Strip(nameText) !in s.entries
    ensures Create(s, nameText, passwordText).Success?
    ensures Delete(Create(s, nameText, passwordText).value, Strip(nameText)) == s
  {
    var name := Strip(nameText);
    var t := Create(s, nameText, passwordText).value;
    RemoveNameAppended(s.names, name);
    assert t.entries - {name} == s.entries;
  }

  lemma {:induction false} RemoveNameAppended(names: seq<string>, name: string)
    requires name !in names
    ensures RemoveName(names + [name], name) == names
  {
    if names == [] {
      assert RemoveName([name][1..], name) == [];
    } else {
      assert (names + [name])[1..] == names[1..] + [name];
      RemoveNameAppended(names[1..], name);
    }
  }

  /**
   * A second add under a name already saved is refused whatever its
   * password, so the first entry stays the only one for that name.
   */
  lemma SecondCreateRefused(s: Store, nameText: string, first: string, second: string)
    requires Valid(s) && Strip(nameText) != [] && Strip(first) != [] && Strip(nameText) !in s.entries
    ensures Create(s, nameText, first).Success?
    ensures Strip(second) != [] ==>
      Create(Create(s, nameText, first).value, nameText, second) == Failure(NameExists)
    ensures Create(s, nameText, first).value.entries[Strip(nameText)].password == Strip(first)
  {
  }
}
