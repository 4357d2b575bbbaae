/** Column registration shared by the two versions of `Table::add_column`
    (src/table.rs:63-84 and src/lib.rs:54-75): the renaming of a duplicate
    column name. */
module Columns {
  import opened Strings

  /** The `n`-th name tried for a column named `orig`: `orig` itself, then
      `orig2`, `orig3`, ... */
  function Candidate(orig: string, n: nat): string
  {
    if n < 2 then orig else orig + Decimal(n)
  }

  /** Different attempts try different names. */
  lemma CandidateInjective(orig: string, a: nat, b: nat)
    requires 1 <= a && 1 <= b && Candidate(orig, a) == Candidate(orig, b)
    ensures a == b
  {
    if a >= 2 && b >= 2 {
      assert (orig + Decimal(a))[|orig|..] == Decimal(a);
      assert (orig + Decimal(b))[|orig|..] == Decimal(b);
      DecimalInjective(a, b);
    }
  }

  /** The names tried in turn, as far as `tried` goes. */
  predicate TriedInTurn(orig: string, tried: seq<string>, taken: set<string>)
  {
    forall j :: 0 <= j < |tried| ==> tried[j] == Candidate(orig, j + 1) && tried[j] in taken
  }

  function Elements(s: seq<string>): set<string>
  {
    set t | t in s
  }

  /** One turn of the renaming loop: the taken name just tried is new, so
      the untried part of `taken` shrinks. */
  lemma TryStep(orig: string, tried: seq<string>, taken: set<string>)
    requires TriedInTurn(orig, tried, taken)
    requires Candidate(orig, |tried| + 1) in taken
    ensures TriedInTurn(orig, tried + [Candidate(orig, |tried| + 1)], taken)
    ensures |taken - Elements(tried + [Candidate(orig, |tried| + 1)])| < |taken - Elements(tried)|
  {
    var name := Candidate(orig, |tried| + 1);
    if name in tried {
      var j :| 0 <= j < |tried| && tried[j] == name;
      CandidateInjective(orig, j + 1, |tried| + 1);
    }
    var before := Elements(tried);
    var after := Elements(tried + [name]);
    assert after == before + {name};
    assert name in taken - before && name !in taken - after;
    assert taken - after < taken - before;
  }

  /** `name` is the first of `orig`, `orig2`, `orig3`, ... that is not
      in `taken`. */
  ghost predicate FirstFree(orig: string, taken: set<string>, name: string)
  {
    name !in taken
    && exists n :: 1 <= n && name == Candidate(orig, n) && forall j :: 1 <= j < n ==> Candidate(orig, j) in taken
  }

  /** There is only one first free name. */
  lemma FirstFreeUnique(orig: string, taken: set<string>, a: string, b: string)
    requires FirstFree(orig, taken, a) && FirstFree(orig, taken, b)
    ensures a == b
  {
  }

  /** A name that is not taken is its own first free name. */
  lemma FreeNameKept(orig: string, taken: set<string>)
    requires orig !in taken
    ensures FirstFree(orig, taken, orig)
  {
    assert orig == Candidate(orig, 1);
  }

  /** The renaming loop of `add_column` with `allow_duplicates`: the first
      of `orig`, `orig2`, `orig3`, ... that is not taken. */
  method FreeName(orig: string, taken: set<string>) returns (name: string)
    ensures FirstFree(orig, taken, name)
  {
    name := orig;
    var index := 2;
    ghost var tried: seq<string> := [];
    while name in taken
      invariant index == |tried| + 2
      invariant name == Candidate(orig, index - 1)
      invariant TriedInTurn(orig, tried, taken)
      decreases |taken - Elements(tried)|
    {
      TryStep(orig, tried, taken);
      tried := tried + [name];
      name := orig + Decimal(index);
      index := index + 1;
    }
    assert forall j :: 1 <= j < index - 1 ==> Candidate(orig, j) == tried[j - 1];
  }
}
