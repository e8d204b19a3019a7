/** Names in a function definition: normalising, making unique, and remembering them. */
module NodeNames {

  // ----- characters and numbers

  predicate IsUpper(c: char) { 'A' <= c <= 'Z' }
  predicate IsLower(c: char) { 'a' <= c <= 'z' }
  predicate IsDigit(c: char) { '0' <= c <= '9' }
  predicate IsAlpha(c: char) { IsUpper(c) || IsLower(c) }

  function ToLower(c: char): char
    requires IsUpper(c)
  {
    c - 'A' + 'a'
  }

  function Digit(d: nat): char
    requires d < 10
  {
    '0' + d as char
  }

  /** The decimal notation of a number. */
  function Decimal(n: nat): (r: string)
    ensures r != [] && forall k :: 0 <= k < |r| ==> IsDigit(r[k])
  {
    if n < 10 then [Digit(n)] else Decimal(n / 10) + [Digit(n % 10)]
  }

  lemma {:induction false} DecimalInjective(m: nat, n: nat)
    requires Decimal(m) == Decimal(n)
    ensures m == n
  {
    var a, b := Decimal(m), Decimal(n);
    assert a[|a| - 1] == Digit(m % 10) && b[|b| - 1] == Digit(n % 10);
    if m < 10 || n < 10 {
      assert |a| == 1;
    } else {
      assert a[..|a| - 1] == Decimal(m / 10) && b[..|b| - 1] == Decimal(n / 10);
      DecimalInjective(m / 10, n / 10);
    }
  }

  /** The number that a string of digits stands for. */
  function ValueOf(s: string): int {
    if s == [] then 0 else 10 * ValueOf(s[..|s| - 1]) + (s[|s| - 1] as int - 48)
  }

  ghost predicate IsNumeral(s: string) {
    s != [] && (forall k :: 0 <= k < |s| ==> 48 <= s[k] as int <= 57) && (|s| > 1 ==> s[0] as int != 48)
  }

  /** The digits of n in base 10, without leading zeros. */
  ghost predicate IsDecimalOf(s: string, n: nat) {
    IsNumeral(s) && ValueOf(s) == n
  }

  lemma {:induction false} DecimalHasValue(n: nat)
    ensures IsDecimalOf(Decimal(n), n) && (n > 0 ==> Decimal(n)[0] as int != 48)
  {
    var r := Decimal(n);
    if n >= 10 {
      DecimalHasValue(n / 10);
      assert r[..|r| - 1] == Decimal(n / 10);
    } else {
      assert r[..0] == [];
    }
  }

  lemma {:induction false} NumeralValue(s: string)
    requires IsNumeral(s)
    ensures ValueOf(s) >= 0 && (|s| > 1 ==> ValueOf(s) >= 10)
  {
    if |s| > 1 {
      var head := s[..|s| - 1];
      NumeralValue(head);
      if |head| == 1 {
        assert head[..0] == [];
      }
    }
  }

  /** The decimal notation is the only string of digits with the value of the number and no leading zero. */
  lemma {:induction false} DecimalIsNumeral(s: string, n: nat)
    ensures s == Decimal(n) <==> IsDecimalOf(s, n)
    decreases n
  {
    DecimalHasValue(n);
    if IsDecimalOf(s, n) {
      NumeralValue(s);
      var head, last := s[..|s| - 1], s[|s| - 1];
      if |s| > 1 {
        NumeralValue(head);
        DecimalIsNumeral(head, n / 10);
        assert s == head + [last];
      } else {
        assert s == [last] && head == [];
      }
    }
  }

  // ----- normal names

  /** What a character becomes: letters are made small, everything but letters and digits becomes '_'. */
  function NormalChar(c: char): char {
    if IsUpper(c) then ToLower(c) else if IsLower(c) || IsDigit(c) then c else '_'
  }

  /** The names that arguments may have: [a-z][a-z0-9_]*. */
  predicate IsArgName(s: string) {
    s != [] && IsLower(s[0]) && forall k :: 0 <= k < |s| ==> IsLower(s[k]) || IsDigit(s[k]) || s[k] == '_'
  }

  /** Position i holds the first letter of s, or is the end if there is none. */
  ghost predicate FirstLetter(s: string, i: int) {
    0 <= i <= |s| && (forall k :: 0 <= k < i ==> !IsAlpha(s[k])) && (i < |s| ==> IsAlpha(s[i]))
  }

  /** The normal form when the first letter is at i: everything before it is dropped. */
  ghost predicate NormalFrom(s: string, i: int, r: string) {
    FirstLetter(s, i) &&
    if i == |s| then r == "unknown" else |r| == |s| - i && forall k :: 0 <= k < |r| ==> r[k] == NormalChar(s[i + k])
  }

  ghost predicate IsNormalOf(s: string, r: string) {
    exists i :: NormalFrom(s, i, r)
  }

  /** The first loop: every character is rewritten where it stands. */
  method NormalizeChars(s: string) returns (name: string)
    ensures |name| == |s| && forall k :: 0 <= k < |s| ==> name[k] == NormalChar(s[k])
  {
    name := s;
    for i := 0 to |name|
      invariant |name| == |s|
      invariant forall k :: 0 <= k < i ==> name[k] == NormalChar(s[k])
      invariant forall k :: i <= k < |s| ==> name[k] == s[k]
    {
      var c := name[i];
      if IsAlpha(c) || IsDigit(c) {
        if IsUpper(c) {
          name := name[i := ToLower(c)];
        }
      } else {
        name := name[i := '_'];
      }
    }
  }

  /** The second loop: finds the first letter. */
  method FindLetter(name: string) returns (i: nat)
    ensures FirstLetter(name, i)
  {
    i := 0;
    while i < |name|
      invariant 0 <= i <= |name|
      invariant forall k :: 0 <= k < i ==> !IsAlpha(name[k])
    {
      if IsAlpha(name[i]) {
        break;
      }
      i := i + 1;
    }
  }

  /** Rewriting keeps letters letters. */
  lemma NormalCharLetter(c: char)
    ensures IsAlpha(NormalChar(c)) == IsAlpha(c) && (IsAlpha(c) ==> IsLower(NormalChar(c)))
    ensures var d := NormalChar(c); IsLower(d) || IsDigit(d) || d == '_'
  {
  }

  lemma NormalizedFrom(s: string, name: string, i: nat)
    requires |name| == |s| && forall k :: 0 <= k < |s| ==> name[k] == NormalChar(s[k])
    requires FirstLetter(name, i)
    ensures NormalFrom(s, i, if i == |s| then "unknown" else name[i..])
    ensures i < |s| ==> IsArgName(name[i..])
  {
    forall k | 0 <= k < |s|
      ensures IsAlpha(name[k]) == IsAlpha(s[k])
      ensures IsLower(name[k]) || IsDigit(name[k]) || name[k] == '_'
    {
      NormalCharLetter(s[k]);
    }
    if i < |s| {
      NormalCharLetter(s[i]);
    }
  }

  method Normalize(s: string) returns (r: string)
    ensures IsNormalOf(s, r) && IsArgName(r)
  {
    if s == [] {
      assert NormalFrom(s, 0, "unknown");
      return "unknown";
    }
    var name := NormalizeChars(s);
    var i := FindLetter(name);
    NormalizedFrom(s, name, i);
    r := if i == |name| then "unknown" else name[i..];
  }

  /** A name has one normal form. */
  lemma NormalUnique(s: string, r: string, r': string)
    requires IsNormalOf(s, r) && IsNormalOf(s, r')
    ensures r == r'
  {
    var i :| NormalFrom(s, i, r);
    var j :| NormalFrom(s, j, r');
    assert i == j;
  }

  predicate LetterCode(c: int) { 65 <= c <= 90 || 97 <= c <= 122 }

  function NormalCode(c: int): int {
    if 65 <= c <= 90 then c + 32 else if 97 <= c <= 122 || 48 <= c <= 57 then c else 95
  }

  /** In character codes: from the first letter, at i, on, large letters become small, small letters and digits stay,
      and all else becomes an underscore; without a letter the text is "unknown". */
  ghost predicate NormalTextFrom(s: string, i: int, r: string) {
    && 0 <= i <= |s| && (forall k :: 0 <= k < i ==> !LetterCode(s[k] as int))
    && if i == |s| then r == "unknown"
       else LetterCode(s[i] as int) && |r| == |s| - i && forall k :: 0 <= k < |r| ==> IsNormalCode(s[i + k], r[k])
  }

  ghost predicate IsNormalCode(c: char, d: char) { d as int == NormalCode(c as int) }

  lemma NormalCharCode(c: char, d: char)
    ensures IsAlpha(c) <==> LetterCode(c as int)
    ensures d == NormalChar(c) <==> IsNormalCode(c, d)
  {
  }

  lemma NormalFromIsText(s: string, i: int, r: string)
    ensures NormalFrom(s, i, r) <==> NormalTextFrom(s, i, r)
  {
    forall k | 0 <= k < |s|
      ensures IsAlpha(s[k]) <==> LetterCode(s[k] as int)
    {
      NormalCharCode(s[k], s[k]);
    }
    forall k | 0 <= i && 0 <= k < |r| && i + k < |s|
      ensures r[k] == NormalChar(s[i + k]) <==> IsNormalCode(s[i + k], r[k])
    {
      NormalCharCode(s[i + k], r[k]);
    }
  }

  /** What the normal form is, in character codes. */
  lemma NormalIsText(s: string, r: string)
    ensures IsNormalOf(s, r) <==> exists i :: NormalTextFrom(s, i, r)
  {
    forall i
      ensures NormalFrom(s, i, r) <==> NormalTextFrom(s, i, r)
    {
      NormalFromIsText(s, i, r);
    }
  }

  /** Argument names are their own normal forms, so normalising twice is normalising once. */
  lemma ArgNamesAreNormal(s: string)
    requires IsArgName(s)
    ensures IsNormalOf(s, s)
  {
    assert NormalFrom(s, 0, s);
  }

  // ----- unique names

  function Candidate(name: string, i: nat): string {
    name + "_" + Decimal(i)
  }

  lemma CandidateInjective(name: string, i: nat, j: nat)
    requires Candidate(name, i) == Candidate(name, j)
    ensures i == j
  {
    assert Candidate(name, i)[|name| + 1..] == Decimal(i);
    assert Candidate(name, j)[|name| + 1..] == Decimal(j);
    DecimalInjective(i, j);
  }

  /** The first n candidates. */
  ghost function Candidates(name: string, n: nat): set<string> {
    if n == 0 then {} else Candidates(name, n - 1) + {Candidate(name, n - 1)}
  }

  /** There are n of them, so no more than |used| can be used. */
  lemma {:induction false} CandidatesCount(name: string, n: nat)
    ensures |Candidates(name, n)| == n
    ensures forall c :: c in Candidates(name, n) ==> exists i: nat :: i < n && c == Candidate(name, i)
  {
    if n > 0 {
      CandidatesCount(name, n - 1);
      if Candidate(name, n - 1) in Candidates(name, n - 1) {
        var i: nat :| i < n - 1 && Candidate(name, n - 1) == Candidate(name, i);
        CandidateInjective(name, n - 1, i);
      }
    }
  }

  /** Only |used| candidates can be used. */
  lemma CandidatesFit(name: string, n: nat, used: set<string>)
    requires forall k: nat :: k < n ==> Candidate(name, k) in used
    ensures n <= |used|
  {
    CandidatesCount(name, n);
    assert Candidates(name, n) <= used;
    assert used == Candidates(name, n) + (used - Candidates(name, n));
  }

  ghost predicate IsFirstCandidate(used: set<string>, name: string, i: nat, r: string) {
    r == Candidate(name, i) && forall k: nat :: k < i ==> Candidate(name, k) in used
  }

  /** The name itself if it is free, else the first free candidate. */
  ghost predicate IsUniqueOf(used: set<string>, name: string, r: string) {
    r !in used && if name !in used then r == name else exists i: nat :: IsFirstCandidate(used, name, i, r)
  }

  /** The name with an underscore and the number i behind it. */
  ghost predicate IsNumbered(name: string, i: nat, r: string) {
    exists d :: IsDecimalOf(d, i) && r == name + "_" + d
  }

  lemma CandidateIsNumbered(name: string, i: nat, r: string)
    ensures r == Candidate(name, i) <==> IsNumbered(name, i, r)
  {
    DecimalIsNumeral(Decimal(i), i);
    if IsNumbered(name, i, r) {
      var d :| IsDecimalOf(d, i) && r == name + "_" + d;
      DecimalIsNumeral(d, i);
    }
  }

  ghost predicate IsFirstFree(used: set<string>, name: string, i: nat, r: string) {
    IsNumbered(name, i, r) && forall k: nat :: k < i ==> NumberedIsUsed(used, name, k)
  }

  ghost predicate NumberedIsUsed(used: set<string>, name: string, k: nat) {
    exists c :: IsNumbered(name, k, c) && c in used
  }

  lemma NumberedUsed(used: set<string>, name: string, k: nat)
    ensures NumberedIsUsed(used, name, k) <==> Candidate(name, k) in used
  {
    CandidateIsNumbered(name, k, Candidate(name, k));
    if NumberedIsUsed(used, name, k) {
      var c :| IsNumbered(name, k, c) && c in used;
      CandidateIsNumbered(name, k, c);
    }
  }

  lemma FirstFreeCandidate(used: set<string>, name: string, i: nat, r: string)
    ensures IsFirstFree(used, name, i, r) <==> IsFirstCandidate(used, name, i, r)
  {
    CandidateIsNumbered(name, i, r);
    forall k: nat
      ensures NumberedIsUsed(used, name, k) <==> Candidate(name, k) in used
    {
      NumberedUsed(used, name, k);
    }
  }

  /** The unique form of a name, in characters: the name if it is free, else the free one of its numbered forms that has
      the least number. */
  lemma UniqueIsFirstFree(used: set<string>, name: string, r: string)
    ensures IsUniqueOf(used, name, r) <==>
      r !in used && if name !in used then r == name else exists i: nat :: IsFirstFree(used, name, i, r)
  {
    forall i: nat
      ensures IsFirstFree(used, name, i, r) <==> IsFirstCandidate(used, name, i, r)
    {
      FirstFreeCandidate(used, name, i, r);
    }
  }

  lemma ArgNameCandidate(name: string, i: nat)
    requires IsArgName(name)
    ensures IsArgName(Candidate(name, i))
  {
  }

  class NodeNameMapping {
    var usedNames: set<string>
    var nameMapping: map<string, string>

    /** The mapping is one-to-one, its values are used, and none is empty. */
    ghost predicate Valid()
      reads this
    {
      && (forall a :: a in nameMapping ==> nameMapping[a] in usedNames && nameMapping[a] != "")
      && (forall a, b :: a in nameMapping && b in nameMapping && nameMapping[a] == nameMapping[b] ==> a == b)
    }

    constructor ()
      ensures Valid() && usedNames == {} && nameMapping == map[]
    {
      usedNames, nameMapping := {}, map[];
    }

    /** Searches for a free name. The search ends because the candidates differ and only finitely many are used. */
    method UniquifyHelper(name: string) returns (r: string)
      ensures IsUniqueOf(usedNames, name, r)
    {
      if name !in usedNames {
        return name;
      }
      var i := 0;
      while true
        invariant 0 <= i <= |usedNames|
        invariant forall k: nat :: k < i ==> Candidate(name, k) in usedNames
        decreases |usedNames| - i
      {
        var candidate := Candidate(name, i);
        if candidate !in usedNames {
          assert IsFirstCandidate(usedNames, name, i, candidate);
          return candidate;
        }
        CandidatesFit(name, i + 1, usedNames);
        i := i + 1;
      }
    }

    /** Normalises an output name and makes it unique; the name is used, but no node's. */
    method GetOutputName(name: string) returns (r: string)
      requires Valid()
      modifies `usedNames
      ensures Valid() && usedNames == old(usedNames) + {r} && r !in old(usedNames) && IsArgName(r)
      ensures exists n :: IsNormalOf(name, n) && IsUniqueOf(old(usedNames), n, r)
    {
      var n := Normalize(name);
      r := UniquifyHelper(n);
      if r != n {
        var i: nat :| r == Candidate(n, i);
        ArgNameCandidate(n, i);
      }
      usedNames := usedNames + {r};
    }

    /** The same for an input, whose node is remembered; a second input of the node replaces the first. */
    method GetInputName(name: string) returns (r: string)
      requires Valid()
      modifies this
      ensures Valid() && usedNames == old(usedNames) + {r} && r !in old(usedNames) && IsArgName(r)
      ensures nameMapping == old(nameMapping)[name := r]
      ensures exists n :: IsNormalOf(name, n) && IsUniqueOf(old(usedNames), n, r)
    {
      r := GetOutputName(name);
      nameMapping := nameMapping[name := r];
    }

    /** Makes the name of a body node unique and remembers it. */
    method Uniquify(name: string) returns (r: string)
      requires Valid() && name != ""
      modifies this
      ensures Valid() && usedNames == old(usedNames) + {r} && r !in old(usedNames)
      ensures nameMapping == old(nameMapping)[name := r]
      ensures IsUniqueOf(old(usedNames), name, r)
    {
      r := UniquifyHelper(name);
      nameMapping := nameMapping[name := r];
      usedNames := usedNames + {r};
    }

    /** Takes a given output name; fails if it is taken. */
    method UseOutputName(name: string) returns (ok: bool)
      requires Valid()
      modifies `usedNames
      ensures Valid() && ok == (name !in old(usedNames)) && usedNames == old(usedNames) + {name}
    {
      ok := name !in usedNames;
      if ok {
        usedNames := usedNames + {name};
      } else {
        assert usedNames == usedNames + {name};
      }
    }

    /** The name that a node got; empty if it got none. A name that is found is in use, and for this node alone. */
    method Lookup(name: string) returns (r: string)
      requires Valid()
      ensures r == "" <==> name !in nameMapping
      ensures r != "" ==> r in usedNames && forall a :: a in nameMapping ==> (nameMapping[a] == r <==> a == name)
    {
      r := if name in nameMapping then nameMapping[name] else "";
    }
  }
}
