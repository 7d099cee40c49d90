/** Naming of function arguments and body nodes (NodeNameMapping in c_api_function.cc). */
module NodeNames {
  import opened Basics
  import opened Text

  predicate IsUpper(c: char) { 'A' <= c <= 'Z' }
  predicate IsLower(c: char) { 'a' <= c <= 'z' }
  predicate IsAlpha(c: char) { IsUpper(c) || IsLower(c) }
  predicate IsAlnum(c: char) { IsAlpha(c) || IsDigit(c) }
  function ToLower(c: char): char requires IsUpper(c) { c - 'A' + 'a' }

  /** The pattern [a-z][a-z0-9_]* demanded of argument names. */
  predicate IsArgName(s: string) {
    && |s| > 0
    && IsLower(s[0])
    && forall i | 0 <= i < |s| :: IsLower(s[i]) || IsDigit(s[i]) || s[i] == '_'
  }

  function FoldChar(c: char): (r: char)
    ensures IsLower(r) || IsDigit(r) || r == '_'
    ensures IsAlpha(r) <==> IsAlpha(c)
    ensures IsLower(c) || IsDigit(c) || c == '_' ==> r == c
    ensures IsUpper(c) ==> r as int - 'a' as int == c as int - 'A' as int
    ensures !IsAlnum(c) ==> r == '_'
  {
    if IsUpper(c) then ToLower(c) else if IsAlnum(c) then c else '_'
  }

  function Fold(s: string): (r: string)
    ensures |r| == |s|
    ensures forall i | 0 <= i < |s| :: r[i] == FoldChar(s[i])
  {
    seq(|s|, i requires 0 <= i < |s| => FoldChar(s[i]))
  }

  /** The index of the first letter at or after i, or the length if there is none. */
  function FirstLetter(s: string, i: nat): (k: nat)
    requires i <= |s|
    ensures i <= k <= |s|
    ensures forall j | i <= j < k :: !IsAlpha(s[j])
    ensures k < |s| ==> IsAlpha(s[k])
    decreases |s| - i
  {
    if i == |s| || IsAlpha(s[i]) then i else FirstLetter(s, i + 1)
  }

  function Normalized(name: string): (r: string)
    ensures IsArgName(r)
  {
    var t := Fold(name);
    var k := FirstLetter(t, 0);
    if k == |t| then "unknown" else t[k..]
  }

  /** Names that already match the pattern are left alone, so normalising twice changes nothing. */
  lemma NormalizeFixesArgNames(name: string)
    requires IsArgName(name)
    ensures Normalized(name) == name
  {
    assert Fold(name) == name;
  }

  /** What is kept: the folded tail of the name from its first letter on. */
  lemma NormalizedIsFoldedTail(name: string, k: nat)
    requires k <= |name| && forall i | 0 <= i < k :: !IsAlpha(name[i])
    requires k < |name| ==> IsAlpha(name[k])
    ensures Normalized(name) == if k == |name| then "unknown" else Fold(name[k..])
  {
    var t := Fold(name);
    assert FirstLetter(t, 0) == k by {
      assert k < |name| ==> IsAlpha(t[k]);
      assert forall i | 0 <= i < k :: !IsAlpha(t[i]);
    }
    assert t[k..] == Fold(name[k..]);
  }

  function Candidate(name: string, i: nat): string {
    name + "_" + Decimal(i)
  }

  lemma CandidateInjective(name: string, i: nat, j: nat)
    requires Candidate(name, i) == Candidate(name, j)
    ensures i == j
  {
    assert Candidate(name, i)[|name| + 1..] == Decimal(i);
    assert Candidate(name, j)[|name| + 1..] == Decimal(j);
    DecimalInjective(i, j);
  }

  ghost function Candidates(name: string, n: nat): (s: set<string>)
    ensures |s| == n
    ensures forall c | c in s :: exists i | 0 <= i < n :: c == Candidate(name, i)
  {
    if n == 0 then
      {}
    else
      var s := Candidates(name, n - 1);
      assert Candidate(name, n - 1) !in s by {
        forall i | 0 <= i < n - 1 && Candidate(name, n - 1) == Candidate(name, i) ensures false {
          CandidateInjective(name, n - 1, i);
        }
      }
      s + {Candidate(name, n - 1)}
  }

  /** Pigeonhole: fewer suffixes can be taken than there are used names. */
  lemma SuffixesRunOut(used: set<string>, name: string, n: nat)
    requires name in used
    requires forall i | 0 <= i < n :: Candidate(name, i) in used
    ensures n < |used|
  {
    var s := Candidates(name, n);
    assert name !in s;
    assert s + {name} <= used;
    SubsetSize(s + {name}, used);
  }

  /** The first suffix from i on that is still free. */
  function FreeSuffix(used: set<string>, name: string, i: nat): (k: nat)
    requires name in used
    requires forall j | 0 <= j < i :: Candidate(name, j) in used
    ensures i <= k < |used|
    ensures Candidate(name, k) !in used
    ensures forall j | 0 <= j < k :: Candidate(name, j) in used
    decreases |used| - i
  {
    SuffixesRunOut(used, name, i);
    if Candidate(name, i) !in used then i else FreeSuffix(used, name, i + 1)
  }

  /** The name itself when free, else the name with the least free numeric suffix. */
  function UniqueName(used: set<string>, name: string): (r: string)
    ensures r !in used
  {
    if name !in used then name else Candidate(name, FreeSuffix(used, name, 0))
  }

  /** A used name gets the least free suffix "_0", "_1", ...; a free one is left alone. */
  lemma UniqueNameIs(used: set<string>, name: string) returns (k: nat)
    ensures name !in used ==> UniqueName(used, name) == name
    ensures name in used ==>
              && k < |used| && UniqueName(used, name) == name + "_" + Decimal(k)
              && forall j: nat | j < k :: name + "_" + Decimal(j) in used
  {
    k := if name in used then FreeSuffix(used, name, 0) else 0;
    if name in used {
      forall j: nat | j < k ensures name + "_" + Decimal(j) in used {
        assert Candidate(name, j) in used;
      }
    }
  }

  /** Making a name unique keeps it well formed. */
  lemma UniqueNameShape(used: set<string>, name: string)
    ensures name <= UniqueName(used, name)
    ensures NoColon(name) ==> NoColon(UniqueName(used, name))
    ensures IsArgName(name) ==> IsArgName(UniqueName(used, name))
  {
    if name in used {
      var d := Decimal(FreeSuffix(used, name, 0));
      var r := UniqueName(used, name);
      assert forall j | |name| < j < |r| :: r[j] == d[j - |name| - 1];
    }
  }

  class NodeNameMapping {
    var usedNames: set<string>
    var nameMapping: map<string, string>

    /** One-to-one, with every value among the used names. */
    ghost predicate Valid()
      reads this
    {
      && (forall n | n in nameMapping :: nameMapping[n] in usedNames)
      && (forall m, n | m in nameMapping && n in nameMapping && nameMapping[m] == nameMapping[n] :: m == n)
    }

    constructor ()
      ensures Valid() && usedNames == {} && nameMapping == map[]
    {
      usedNames, nameMapping := {}, map[];
    }

    static method Normalize(name: string) returns (r: string)
      ensures r == Normalized(name)
    {
      if name == "" {
        return "unknown";
      }
      var s, n := name, |name|;
      for i := 0 to n
        invariant |s| == n
        invariant forall j | 0 <= j < i :: s[j] == FoldChar(name[j])
        invariant forall j | i <= j < n :: s[j] == name[j]
      {
        var c := s[i];
        if IsAlnum(c) {
          if IsUpper(c) {
            s := s[i := ToLower(c)];
          }
        } else {
          s := s[i := '_'];
        }
      }
      assert s == Fold(name);
      var i := 0;
      while i < n && !IsAlpha(s[i])
        invariant 0 <= i <= n
        invariant FirstLetter(s, i) == FirstLetter(s, 0)
      {
        i := i + 1;
      }
      r := if i == n then "unknown" else s[i..];
    }

    method UniquifyHelper(name: string) returns (r: string)
      ensures r == UniqueName(usedNames, name)
    {
      if name !in usedNames {
        return name;
      }
      var i := 0;
      while Candidate(name, i) in usedNames
        invariant forall j | 0 <= j < i :: Candidate(name, j) in usedNames
        invariant FreeSuffix(usedNames, name, i) == FreeSuffix(usedNames, name, 0)
        decreases |usedNames| - i
      {
        SuffixesRunOut(usedNames, name, i + 1);
        i := i + 1;
      }
      return Candidate(name, i);
    }

    method GetIOName(name: string) returns (r: string)
      requires Valid()
      modifies this
      ensures Valid()
      ensures r == UniqueName(old(usedNames), Normalized(name))
      ensures usedNames == old(usedNames) + {r} && nameMapping == old(nameMapping)
    {
      var normalized := Normalize(name);
      r := UniquifyHelper(normalized);
      usedNames := usedNames + {r};
    }

    method Uniquify(name: string) returns (r: string)
      requires Valid()
      modifies this
      ensures Valid()
      ensures r == UniqueName(old(usedNames), name)
      ensures usedNames == old(usedNames) + {r} && nameMapping == old(nameMapping)[name := r]
    {
      r := UniquifyHelper(name);
      nameMapping := nameMapping[name := r];
      usedNames := usedNames + {r};
    }

    /** Returns false, the source's error status, when the name is already used. */
    method UseOutputName(name: string) returns (ok: bool)
      requires Valid()
      modifies this
      ensures Valid() && nameMapping == old(nameMapping)
      ensures ok <==> name !in old(usedNames)
      ensures usedNames == old(usedNames) + {name}
    {
      if name in usedNames {
        return false;
      }
      usedNames := usedNames + {name};
      return true;
    }

    method Lookup(name: string) returns (r: string)
      ensures r == if name in nameMapping then nameMapping[name] else ""
    {
      return if name in nameMapping then nameMapping[name] else "";
    }
  }
}
