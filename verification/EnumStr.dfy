/** Enumerations that print and parse (include/enum_str.h). The macro keeps the text of each
    enumerator, initializer and all (`"red = 1"`), and cuts it at the first terminator. */
module EnumStr {

  import opened Basics

  // ---------- C strings ----------

  /** The memory of a C string: it ends at its only NUL. */
  predicate IsCString(s: seq<char>) {
    && |s| > 0 && s[|s| - 1] == '\0'
    && forall i :: 0 <= i < |s| - 1 ==> s[i] != '\0'
  }

  function Text(s: seq<char>): string
    requires IsCString(s)
  {
    s[..|s| - 1]
  }

  /** `terminators`, with the NUL at its end. */
  const TERMINATORS: seq<char> := [' ', '=', '\t', '\r', '\n', '\0']

  /** `is_terminator`: is `c` one of the terminators from `index` on? */
  predicate IsTerminator(c: char, index: nat)
    ensures IsTerminator(c, index) <==> exists j :: index <= j < |TERMINATORS| && TERMINATORS[j] == c
    decreases |TERMINATORS| - index
  {
    if index >= |TERMINATORS| then false
    else if c == TERMINATORS[index] then true
    else IsTerminator(c, index + 1)
  }

  lemma NulTerminates()
    ensures IsTerminator('\0', 0)
  {
    assert TERMINATORS[5] == '\0';
  }

  /** The terminators are the blank, the equals sign, the tab, the line ends and the NUL. */
  lemma TerminatorsAre(c: char)
    ensures IsTerminator(c, 0) <==> c == ' ' || c == '=' || c == '\t' || c == '\r' || c == '\n' || c == '\0'
  {
    assert IsTerminator(c, 6) == false;
    assert IsTerminator(c, 3) <==> c == '\r' || c == '\n' || c == '\0';
  }

  /** `strcspn`, from `i` on: the length of the part before the first terminator. */
  function Cut(s: seq<char>, i: nat): (n: nat)
    requires IsCString(s) && i < |s|
    ensures i <= n < |s| && IsTerminator(s[n], 0)
    ensures forall j :: i <= j < n ==> !IsTerminator(s[j], 0)
    decreases |s| - i
  {
    NulTerminates();
    if IsTerminator(s[i], 0) then i else Cut(s, i + 1)
  }

  function Trimmed(s: seq<char>): string
    requires IsCString(s)
  {
    s[..Cut(s, 0)]
  }

  /** `matches_untrimmed`. `s` is read up to its NUL and no further. */
  method MatchesUntrimmed(untrimmed: seq<char>, s: seq<char>) returns (r: bool)
    requires IsCString(untrimmed) && IsCString(s)
    ensures r <==> Text(s) == Trimmed(untrimmed)
  {
    NulTerminates();
    var end := Cut(untrimmed, 0);
    var index := 0;
    while !IsTerminator(untrimmed[index], 0)
      invariant index <= end && index < |s|
      invariant s[..index] == untrimmed[..index]
      decreases end - index
    {
      if s[index] != untrimmed[index] {
        return false;
      }
      index := index + 1;
    }
    return s[index] == '\0';
  }

  // ---------- an enumeration ----------

  /** `_raw_names` and `_values` */
  datatype Decl = Decl(rawNames: seq<seq<char>>, values: seq<int>) {
    ghost predicate Valid() {
      && |rawNames| == |values|
      && forall i :: 0 <= i < |rawNames| ==> IsCString(rawNames[i])
    }

    ghost predicate DistinctNames()
      requires Valid()
    {
      forall i, j :: 0 <= i < j < |rawNames| ==> Trimmed(rawNames[i]) != Trimmed(rawNames[j])
    }

    ghost predicate DistinctValues() {
      forall i, j :: 0 <= i < j < |values| ==> values[i] != values[j]
    }
  }

  /** `_from_string` from enumerator `index` on; `None` is the exception. */
  function Parsed(d: Decl, s: seq<char>, index: nat): (r: Option<int>)
    requires d.Valid() && IsCString(s)
    decreases |d.values| - index
  {
    if index >= |d.values| then None
    else if Text(s) == Trimmed(d.rawNames[index]) then Some(d.values[index])
    else Parsed(d, s, index + 1)
  }

  /** The first enumerator from `index` on with this value. */
  function IndexOf(d: Decl, v: int, index: nat): (k: nat)
    ensures index <= k
    ensures k < |d.values| ==> d.values[k] == v
    ensures forall j :: index <= j < k && j < |d.values| ==> d.values[j] != v
    decreases |d.values| - index
  {
    if index >= |d.values| || d.values[index] == v then index else IndexOf(d, v, index + 1)
  }

  /** What `_to_string` returns; `None` is the exception. */
  function Printed(d: Decl, v: int): Option<seq<char>>
    requires d.Valid()
  {
    var k := IndexOf(d, v, 0);
    if k < |d.values| then Some(Trimmed(d.rawNames[k]) + ['\0']) else None
  }

  /** The static array of trimmed names, filled when it is first asked for. */
  class EnumType {
    const decl: Decl
    const theNames: array<seq<char>>
    var initialized: bool

    ghost predicate Valid()
      reads this, theNames
    {
      && decl.Valid() && theNames.Length == |decl.values|
      && (initialized ==> forall i :: 0 <= i < theNames.Length ==> theNames[i] == Trimmed(decl.rawNames[i]) + ['\0'])
    }

    constructor (decl: Decl)
      requires decl.Valid()
      ensures Valid() && this.decl == decl && fresh(theNames)
    {
      this.decl, initialized := decl, false;
      theNames := new seq<char>[|decl.values|](_ => []);
    }

    /** `_trimmed_names` */
    method TrimmedNames()
      requires Valid()
      modifies this, theNames
      ensures Valid() && initialized
      ensures theNames.Length == |decl.rawNames|
      ensures forall i :: 0 <= i < theNames.Length ==> theNames[i] == Trimmed(decl.rawNames[i]) + ['\0']
    {
      if !initialized {
        var index := 0;
        while index < theNames.Length
          invariant 0 <= index <= theNames.Length && !initialized
          invariant forall i :: 0 <= i < index ==> theNames[i] == Trimmed(decl.rawNames[i]) + ['\0']
        {
          var raw := decl.rawNames[index];
          var length := Cut(raw, 0);
          theNames[index] := raw[..length] + ['\0'];
          index := index + 1;
        }
        initialized := true;
      }
    }

    /** `_to_string` */
    method ToString(value: int) returns (r: Option<seq<char>>)
      requires Valid()
      modifies this, theNames
      ensures Valid() && r == Printed(decl, value)
    {
      var index := 0;
      while index < |decl.values|
        invariant 0 <= index <= |decl.values| && Valid()
        invariant IndexOf(decl, value, 0) == IndexOf(decl, value, index)
      {
        if decl.values[index] == value {
          TrimmedNames();
          return Some(theNames[index]);
        }
        index := index + 1;
      }
      return None;
    }

    /** `_from_string` */
    method FromString(s: seq<char>, index: nat) returns (r: Option<int>)
      requires Valid() && IsCString(s)
      ensures r == Parsed(decl, s, index)
      decreases |decl.values| - index
    {
      if index >= |decl.values| {
        return None;
      }
      var matches := MatchesUntrimmed(decl.rawNames[index], s);
      if matches {
        return Some(decl.values[index]);
      }
      r := FromString(s, index + 1);
    }
  }

  // ---------- round trips ----------

  lemma TrimmedIsCString(s: seq<char>)
    requires IsCString(s)
    ensures IsCString(Trimmed(s) + ['\0']) && Text(Trimmed(s) + ['\0']) == Trimmed(s)
  {
    NulTerminates();
  }

  /** Parsing accepts exactly the trimmed names, and yields the value of the first that matches. */
  lemma {:induction false} ParsedFinds(d: Decl, s: seq<char>, index: nat)
    requires d.Valid() && IsCString(s)
    ensures Parsed(d, s, index) == None
       <==> forall i :: index <= i < |d.values| ==> Trimmed(d.rawNames[i]) != Text(s)
    ensures Parsed(d, s, index).Some? ==>
      exists i :: index <= i < |d.values| && Trimmed(d.rawNames[i]) == Text(s) && Parsed(d, s, index).value == d.values[i]
                  && forall j :: index <= j < i ==> Trimmed(d.rawNames[j]) != Text(s)
    decreases |d.values| - index
  {
    if index < |d.values| {
      ParsedFinds(d, s, index + 1);
    }
  }

  /** Printing succeeds exactly on declared values. */
  lemma PrintedAccepts(d: Decl, v: int)
    requires d.Valid()
    ensures Printed(d, v).Some? <==> v in d.values
  {
    var k := IndexOf(d, v, 0);
    if v in d.values {
      var i :| 0 <= i < |d.values| && d.values[i] == v;
      assert k <= i;
    }
  }

  /** Every declared value survives printing and parsing. */
  lemma ValueRoundTrip(d: Decl, v: int)
    requires d.Valid() && d.DistinctNames() && v in d.values
    ensures Printed(d, v).Some? && IsCString(Printed(d, v).value)
    ensures Parsed(d, Printed(d, v).value, 0) == Some(v)
  {
    PrintedAccepts(d, v);
    var k := IndexOf(d, v, 0);
    TrimmedIsCString(d.rawNames[k]);
    ParsedFinds(d, Printed(d, v).value, 0);
  }

  /** An accepted name survives parsing and printing exactly if no enumerator before it has its value. */
  lemma NameRoundTrip(d: Decl, s: seq<char>, i: nat)
    requires d.Valid() && d.DistinctNames() && IsCString(s)
    requires i < |d.values| && Text(s) == Trimmed(d.rawNames[i])
    ensures Parsed(d, s, 0) == Some(d.values[i])
    ensures Printed(d, d.values[i]) == Some(s) <==> forall j :: 0 <= j < i ==> d.values[j] != d.values[i]
  {
    ParsedFinds(d, s, 0);
    var k := IndexOf(d, d.values[i], 0);
    assert s == Text(s) + ['\0'];
    TrimmedIsCString(d.rawNames[k]);
    if k != i {
      assert k < i;
      assert Trimmed(d.rawNames[k]) != Trimmed(d.rawNames[i]);
      assert Text(Trimmed(d.rawNames[k]) + ['\0']) != Text(s);
    }
  }

  /** All accepted names survive exactly if the values are distinct. */
  lemma NamesRoundTripIffDistinct(d: Decl)
    requires d.Valid() && d.DistinctNames()
    ensures d.DistinctValues()
       <==> forall s {:trigger Parsed(d, s, 0)} :: IsCString(s) && Parsed(d, s, 0).Some? ==>
              Printed(d, Parsed(d, s, 0).value) == Some(s)
  {
    if d.DistinctValues() {
      forall s | IsCString(s) && Parsed(d, s, 0).Some?
        ensures Printed(d, Parsed(d, s, 0).value) == Some(s)
      {
        ParsedFinds(d, s, 0);
        var i: nat :| i < |d.values| && Trimmed(d.rawNames[i]) == Text(s);
        NameRoundTrip(d, s, i);
      }
    } else {
      var i, j: nat :| 0 <= i < j < |d.values| && d.values[i] == d.values[j];
      var s := Trimmed(d.rawNames[j]) + ['\0'];
      TrimmedIsCString(d.rawNames[j]);
      NameRoundTrip(d, s, j);
      assert Parsed(d, s, 0).Some?;
    }
  }

  /** What may stand in a name. */
  predicate IsName(name: string) {
    forall i :: 0 <= i < |name| ==>
      && name[i] != ' ' && name[i] != '=' && name[i] != '\t' && name[i] != '\r' && name[i] != '\n' && name[i] != '\0'
  }

  /** What the macro keeps of an enumerator begins with its name, and then there is its end, or a
      blank or an equals sign, or a line end or a tab. */
  lemma NameIsTrimmed(name: string, rest: seq<char>)
    requires IsName(name) && IsCString(rest) && rest[0] in {' ', '=', '\t', '\r', '\n', '\0'}
    ensures IsCString(name + rest) && Trimmed(name + rest) == name
  {
    var s := name + rest;
    assert s[|s| - 1] == rest[|rest| - 1];
    TerminatorsAre(s[|name|]);
    forall j | 0 <= j < |name|
      ensures !IsTerminator(s[j], 0)
    {
      TerminatorsAre(s[j]);
    }
    CutAt(s, 0, |name|);
  }

  /** So an enumerator is found by its name, whatever its initializer: if no other has the name, its
      value is what the name parses to; and if no earlier one has its value, that prints as the name. */
  lemma EnumeratorByName(d: Decl, i: nat, name: string, rest: seq<char>)
    requires d.Valid() && i < |d.values|
    requires IsName(name) && IsCString(rest) && rest[0] in {' ', '=', '\t', '\r', '\n', '\0'}
    requires d.rawNames[i] == name + rest
    ensures IsCString(name + ['\0']) && Parsed(d, name + ['\0'], 0).Some?
    ensures d.DistinctNames() ==> Parsed(d, name + ['\0'], 0) == Some(d.values[i])
    ensures (forall j :: 0 <= j < i ==> d.values[j] != d.values[i]) ==> Printed(d, d.values[i]) == Some(name + ['\0'])
  {
    NameIsTrimmed(name, rest);
    NameIsTrimmed(name, ['\0']);
    var s := name + ['\0'];
    assert Text(s) == name;
    ParsedFinds(d, s, 0);
    if d.DistinctNames() {
      NameRoundTrip(d, s, i);
    }
  }

  /** The documented form of an enumerator, as text: "red = 1". */
  lemma RedIsRed()
    ensures var d := Decl(["red = 1\0"], [1]);
            && d.Valid() && IsCString("red\0") && Parsed(d, "red\0", 0) == Some(1) && Printed(d, 1) == Some("red\0")
  {
    var d := Decl(["red = 1\0"], [1]);
    assert d.rawNames[0] == "red" + " = 1\0" && "red" + ['\0'] == "red\0";
    EnumeratorByName(d, 0, "red", " = 1\0");
  }

  lemma CutAt(s: seq<char>, i: nat, n: nat)
    requires IsCString(s) && i <= n < |s| && IsTerminator(s[n], 0)
    requires forall j :: i <= j < n ==> !IsTerminator(s[j], 0)
    ensures Cut(s, i) == n
  {
  }

  /** Two enumerators with one value: the name of the second prints as that of the first. */
  lemma AliasLosesName()
    ensures var d := Decl(["a=1\0", "b=1\0"], [1, 1]);
            && d.Valid() && d.DistinctNames() && IsCString("b\0")
            && Parsed(d, "b\0", 0) == Some(1) && Printed(d, 1) == Some("a\0")
  {
    var d := Decl(["a=1\0", "b=1\0"], [1, 1]);
    assert TERMINATORS[1] == '=';
    CutAt(d.rawNames[0], 0, 1);
    CutAt(d.rawNames[1], 0, 1);
    assert Trimmed(d.rawNames[0]) == "a" && Trimmed(d.rawNames[1]) == "b";
    assert IndexOf(d, 1, 0) == 0 && "a" + ['\0'] == "a\0";
    ParsedFinds(d, "b\0", 0);
  }
}
