/**
 * The table of command-line argument names, its order, and the lookup that
 * turns the text after '/' into an argument id (main.cpp:132-172, 279-293).
 */
module ArgumentNames {
  import opened Common

  /** argument_names: the accepted names, sorted. */
  const ArgumentNames: seq<string> :=
    ["dir", "ext", "note", "notef", "recurse", "replace", "syntax", "verbose"]

  /** The ids find_argument_name_id gives the names, as the switch in init uses them. */
  const DirId: nat := 1
  const ExtId: nat := 2
  const NoteId: nat := 3
  const NotefId: nat := 4
  const RecurseId: nat := 5
  const ReplaceId: nat := 6
  const SyntaxId: nat := 7
  const VerboseId: nat := 8

  /** The value get_max_argument_name_length() computes at compile time. */
  const MaxNameLength: nat := 7

  /**
   * operator< of std::wstring_view: code unit by code unit, and a proper
   * prefix before the longer string.
   */
  predicate Less(a: string, b: string)
    decreases |a|
  {
    if |a| == 0 then |b| > 0
    else if |b| == 0 then false
    else if a[0] != b[0] then a[0] < b[0]
    else Less(a[1..], b[1..])
  }

  /** Every name precedes every later one. */
  predicate StrictlySorted(t: seq<string>)
  {
    forall i, j :: 0 <= i < j < |t| ==> Less(t[i], t[j])
  }

  /** The position of s in t at or after i, or |t| when it is not there. */
  function IndexFrom(t: seq<string>, s: string, i: nat): (k: nat)
    requires i <= |t|
    ensures i <= k <= |t|
    ensures k < |t| ==> t[k] == s
    ensures forall j :: i <= j < k ==> t[j] != s
    decreases |t| - i
  {
    if i == |t| then |t| else if t[i] == s then i else IndexFrom(t, s, i + 1)
  }

  /**
   * The id find_argument_name_id promises: the position of the name in the
   * table plus one, or 0 (argument_name_id::unknown) for any other string.
   */
  function NameId(s: string): (id: nat)
    ensures id <= |ArgumentNames|
    ensures id == 0 <==> s !in ArgumentNames
    ensures id > 0 ==> ArgumentNames[id - 1] == s
  {
    var k := IndexFrom(ArgumentNames, s, 0);
    if k == |ArgumentNames| then 0 else k + 1
  }

  // ---------------------------------------------------------------------------
  // The order

  lemma {:induction false} LessIrreflexive(a: string)
    ensures !Less(a, a)
    decreases |a|
  {
    if |a| > 0 {
      LessIrreflexive(a[1..]);
    }
  }

  lemma {:induction false} LessTransitive(a: string, b: string, c: string)
    requires Less(a, b) && Less(b, c)
    ensures Less(a, c)
    decreases |a|
  {
    if |a| > 0 && a[0] == b[0] && b[0] == c[0] {
      LessTransitive(a[1..], b[1..], c[1..]);
    }
  }

  /** The static_assert next to the table: the names are sorted (strictly, as they are distinct). */
  lemma {:induction false} ArgumentNamesSorted()
    ensures StrictlySorted(ArgumentNames)
  {
    var t := ArgumentNames;
    assert Less(t[0], t[1]) && Less(t[1], t[2]) && Less(t[2], t[3]) && Less(t[3], t[4]);
    assert Less(t[4], t[5]) && Less(t[5], t[6]) && Less(t[6], t[7]);
    forall i, j | 0 <= i < j < |t|
      ensures Less(t[i], t[j])
    {
      var k := i;
      while k + 1 < j
        invariant i <= k < j
        invariant Less(t[i], t[k + 1])
      {
        LessTransitive(t[i], t[k + 1], t[k + 2]);
        k := k + 1;
      }
    }
  }

  /** The name at position k has id k + 1: the table holds no name twice. */
  lemma {:induction false} NameIdAt(k: nat)
    requires k < |ArgumentNames|
    ensures NameId(ArgumentNames[k]) == k + 1
  {
    ArgumentNamesSorted();
    SortedDistinct(ArgumentNames);
  }

  /** A strictly sorted table holds no string twice. */
  lemma {:induction false} SortedDistinct(t: seq<string>)
    requires StrictlySorted(t)
    ensures forall a, b :: 0 <= a < b < |t| ==> t[a] != t[b]
  {
    forall a, b | 0 <= a < b < |t|
      ensures t[a] != t[b]
    {
      LessIrreflexive(t[a]);
    }
  }

  /** The case labels find_argument_name_id(L"dir") ... find_argument_name_id(L"verbose"). */
  lemma {:induction false} NameIds()
    ensures NameId("dir") == DirId && NameId("ext") == ExtId
    ensures NameId("note") == NoteId && NameId("notef") == NotefId
    ensures NameId("recurse") == RecurseId && NameId("replace") == ReplaceId
    ensures NameId("syntax") == SyntaxId && NameId("verbose") == VerboseId
  {
    NameIdAt(0); NameIdAt(1); NameIdAt(2); NameIdAt(3);
    NameIdAt(4); NameIdAt(5); NameIdAt(6); NameIdAt(7);
  }

  // ---------------------------------------------------------------------------
  // The code

  /** get_max_argument_name_length: the length of the longest name in the table. */
  method MaxArgumentNameLength() returns (maxSize: nat)
    ensures forall i :: 0 <= i < |ArgumentNames| ==> |ArgumentNames[i]| <= maxSize
    ensures exists i :: 0 <= i < |ArgumentNames| && |ArgumentNames[i]| == maxSize
    ensures maxSize == MaxNameLength
  {
    maxSize := 0;
    var p := 0;
    while p != |ArgumentNames|
      invariant 0 <= p <= |ArgumentNames|
      invariant forall i :: 0 <= i < p ==> |ArgumentNames[i]| <= maxSize
      invariant maxSize == 0 || exists i :: 0 <= i < p && |ArgumentNames[i]| == maxSize
    {
      if |ArgumentNames[p]| > maxSize {
        maxSize := |ArgumentNames[p]|;
        assert 0 <= p < p + 1 && |ArgumentNames[p]| == maxSize;
      }
      p := p + 1;
    }
    assert |ArgumentNames[0]| == 3 && |ArgumentNames[4]| == MaxNameLength;
  }

  /**
   * std::lower_bound over a sorted table: the first position whose name is
   * not less than s.
   */
  method LowerBound(t: seq<string>, s: string) returns (lo: nat)
    requires StrictlySorted(t)
    ensures lo <= |t|
    ensures forall k :: 0 <= k < lo ==> Less(t[k], s)
    ensures forall k :: lo <= k < |t| ==> !Less(t[k], s)
  {
    var hi := |t|;
    lo := 0;
    while lo < hi
      invariant 0 <= lo <= hi <= |t|
      invariant forall k :: 0 <= k < lo ==> Less(t[k], s)
      invariant forall k :: hi <= k < |t| ==> !Less(t[k], s)
    {
      var mid := (lo + hi) / 2;
      if Less(t[mid], s) {
        forall k | 0 <= k < mid
          ensures Less(t[k], s)
        {
          LessTransitive(t[k], t[mid], s);
        }
        lo := mid + 1;
      } else {
        forall k | mid < k < |t|
          ensures !Less(t[k], s)
        {
          if Less(t[k], s) {
            LessTransitive(t[mid], t[k], s);
          }
        }
        hi := mid;
      }
    }
  }

  /** In a sorted table, s occurs exactly at its lower bound, if anywhere. */
  lemma {:induction false} LowerBoundFinds(t: seq<string>, s: string, lo: nat)
    requires StrictlySorted(t)
    requires lo <= |t|
    requires forall k :: 0 <= k < lo ==> Less(t[k], s)
    requires forall k :: lo <= k < |t| ==> !Less(t[k], s)
    ensures s in t <==> lo < |t| && t[lo] == s
  {
    LessIrreflexive(s);
    if s in t {
      var k :| 0 <= k < |t| && t[k] == s;
    }
  }

  /**
   * find_argument_name_id: the lower bound of the name in the sorted table,
   * then a check that the name found there is the one looked up.
   */
  method FindArgumentNameId(s: string) returns (id: nat)
    ensures id == NameId(s)
    ensures id == 0 <==> s !in ArgumentNames
    ensures id > 0 ==> ArgumentNames[id - 1] == s
  {
    ArgumentNamesSorted();
    var it := LowerBound(ArgumentNames, s);
    LowerBoundFinds(ArgumentNames, s, it);
    if it == |ArgumentNames| || ArgumentNames[it] != s {
      id := 0;
    } else {
      id := it + 1;
      assert forall k :: 0 <= k < it ==> ArgumentNames[k] != s by {
        LessIrreflexive(s);
      }
    }
  }

  /**
   * The copy loop in init: the characters after the leading '/' are copied into
   * argName until the argument ends or the buffer of `capacity` characters is
   * full, so only the first `capacity` of them are looked up.
   */
  method CopyArgumentName(arg: string, capacity: nat) returns (name: string)
    requires |arg| >= 1
    ensures |name| == if |arg| - 1 < capacity then |arg| - 1 else capacity
    ensures forall k :: 0 <= k < |name| ==> name[k] == arg[k + 1]
  {
    name := [];
    var argChIdx := 1;
    while argChIdx < |arg| && |name| < capacity
      invariant 1 <= argChIdx <= |arg|
      invariant |name| == argChIdx - 1 <= capacity
      invariant forall k :: 0 <= k < |name| ==> name[k] == arg[k + 1]
    {
      name := name + [arg[argChIdx]];
      argChIdx := argChIdx + 1;
    }
  }

  /** The text the lookup sees for an argument that starts with '/'. */
  function ArgumentName(arg: string): (name: string)
    requires |arg| >= 1
    ensures |name| == if |arg| - 1 <= MaxNameLength then |arg| - 1 else MaxNameLength
    ensures StartsWith(arg[1..], name)
  {
    if |arg| - 1 <= MaxNameLength then arg[1..] else arg[1..1 + MaxNameLength]
  }

  /** A seven-letter name followed by anything is still that name: "/recursex" means /recurse. */
  lemma {:induction false} LongNamesTruncated(n: string, extra: string)
    requires n in ArgumentNames && |n| == MaxNameLength
    ensures ArgumentName("/" + n + extra) == n
    ensures NameId(ArgumentName("/" + n + extra)) > 0
  {
    assert ("/" + n + extra)[1..1 + MaxNameLength] == n;
  }

  /** Every name of the table written after '/' is recognised as itself. */
  lemma {:induction false} TableNamesRecognised(n: string)
    requires n in ArgumentNames
    ensures ArgumentName("/" + n) == n
    ensures ArgumentNames[NameId(ArgumentName("/" + n)) - 1] == n
  {
    assert ("/" + n)[1..] == n;
  }

  /** "/" alone is an unknown argument. */
  lemma {:induction false} SlashAloneUnknown()
    ensures NameId(ArgumentName("/")) == 0
  {
    assert ArgumentName("/") == "";
  }
}
