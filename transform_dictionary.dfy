/** The reshaping loop of preprocessing/transform_dictionary.py: every input
    entry yields a word key (its non-null base forms joined by ", ", or
    "Unknown") and a definition (the entry's own, or a default when the field
    is missing), and the pair is written into a dictionary, so that a later
    entry with the same key overwrites an earlier one. */
module TransformDictionary {
  import opened Wrappers

  const Separator: string := ", "
  const UnknownWord: string := "Unknown"
  const DefaultDefinition: string := "No definition available"

  /** The `definition` field of an input entry as JSON gives it. */
  datatype DefField = Missing | Null | Str(s: string)

  /** The value stored in the output dictionary: a JSON string or `null`. */
  datatype DefValue = NullValue | Text(text: string)

  /** One input record. `baseForms` is `None` when the field is absent or
      `null`; each form is `None` when that element is `null`, and otherwise
      already in its string form. */
  datatype Entry = Entry(baseForms: Option<seq<Option<string>>>, definition: DefField)

  // ---------------------------------------------------------------------------
  // Key derivation
  // ---------------------------------------------------------------------------

  /** `entry.get("base_forms") or []`: an absent, null or empty list all read as
      the empty list. */
  function Forms(e: Entry): seq<Option<string>> {
    match e.baseForms
    case None => []
    case Some(xs) => xs
  }

  /** The list comprehension that keeps the non-null forms. */
  function Present(xs: seq<Option<string>>): (r: seq<string>)
    ensures |r| <= |xs|
  {
    if xs == [] then []
    else (if xs[0].Some? then [xs[0].value] else []) + Present(xs[1..])
  }

  /** Python's `sep.join(parts)`. */
  function Join(parts: seq<string>, sep: string): string {
    if |parts| == 0 then ""
    else if |parts| == 1 then parts[0]
    else parts[0] + sep + Join(parts[1..], sep)
  }

  /** The word key of an entry. The test is on the list of kept forms, not on
      the joined string, so forms `[""]` give the key `""`. */
  function DeriveKey(e: Entry): string {
    var clean := Present(Forms(e));
    if clean != [] then Join(clean, Separator) else UnknownWord
  }

  /** `entry.get("definition", DefaultDefinition)`: the default replaces only a
      missing field; an explicit null is kept. */
  function DeriveDefinition(e: Entry): (d: DefValue)
    ensures d == NullValue <==> e.definition == Null
    ensures d == Text(DefaultDefinition) <==> e.definition in {Missing, Str(DefaultDefinition)}
    ensures e.definition.Str? ==> d == Text(e.definition.s)
  {
    match e.definition
    case Missing => Text(DefaultDefinition)
    case Null => NullValue
    case Str(s) => Text(s)
  }

  // ---------------------------------------------------------------------------
  // Facts about the kept forms
  // ---------------------------------------------------------------------------

  lemma {:induction false} PresentAppend(a: seq<Option<string>>, b: seq<Option<string>>)
    ensures Present(a + b) == Present(a) + Present(b)
  {
    if a == [] {
      assert a + b == b;
    } else {
      assert (a + b)[0] == a[0];
      assert (a + b)[1..] == a[1..] + b;
      PresentAppend(a[1..], b);
    }
  }

  /** Nothing is kept exactly when every form is null. */
  lemma {:induction false} PresentEmptyIff(xs: seq<Option<string>>)
    ensures Present(xs) == [] <==> forall i :: 0 <= i < |xs| ==> xs[i].None?
  {
    if xs != [] {
      PresentEmptyIff(xs[1..]);
      if xs[0].None? {
        forall i | 0 < i < |xs| && (forall k :: 0 <= k < |xs[1..]| ==> xs[1..][k].None?)
          ensures xs[i].None?
        {
          assert xs[i] == xs[1..][i - 1];
        }
      }
    }
  }

  /** A form is kept exactly when it occurs non-null. */
  lemma {:induction false} PresentMembers(xs: seq<Option<string>>, s: string)
    ensures s in Present(xs) <==> Some(s) in xs
  {
    if xs != [] {
      PresentMembers(xs[1..], s);
      assert xs == [xs[0]] + xs[1..];
    }
  }

  /** When no form is null, every form is kept, position for position. */
  lemma {:induction false} PresentAllSome(xs: seq<Option<string>>)
    requires forall i :: 0 <= i < |xs| ==> xs[i].Some?
    ensures |Present(xs)| == |xs|
    ensures forall i :: 0 <= i < |xs| ==> Present(xs)[i] == xs[i].value
  {
    if xs != [] {
      PresentAllSome(xs[1..]);
      assert Present(xs) == [xs[0].value] + Present(xs[1..]);
    }
  }

  /** A non-null form at position `i` lands at position |Present(xs[..i])| of
      the kept list, i.e. right after the forms kept before it. */
  lemma PresentAt(xs: seq<Option<string>>, i: nat)
    requires i < |xs| && xs[i].Some?
    ensures |Present(xs[..i])| < |Present(xs)|
    ensures Present(xs)[|Present(xs[..i])|] == xs[i].value
  {
    assert xs == xs[..i] + ([xs[i]] + xs[i + 1..]);
    PresentAppend(xs[..i], [xs[i]] + xs[i + 1..]);
    PresentAppend([xs[i]], xs[i + 1..]);
    assert Present([xs[i]]) == [xs[i].value];
  }

  /** Dropping nulls keeps the relative order of the other forms: the forms at
      positions i < j are kept at positions p < q. */
  lemma PresentKeepsOrder(xs: seq<Option<string>>, i: nat, j: nat)
    requires i < j < |xs| && xs[i].Some? && xs[j].Some?
    ensures |Present(xs[..i])| < |Present(xs[..j])| < |Present(xs)|
    ensures Present(xs)[|Present(xs[..i])|] == xs[i].value
    ensures Present(xs)[|Present(xs[..j])|] == xs[j].value
  {
    PresentAt(xs, i);
    PresentAt(xs, j);
    PresentAt(xs[..j], i);
    assert xs[..j][..i] == xs[..i];
  }

  // ---------------------------------------------------------------------------
  // Facts about the key
  // ---------------------------------------------------------------------------

  /** An absent, null, empty or all-null `base_forms` gives "Unknown". */
  lemma KeyUnknownWithoutForms(e: Entry)
    requires e.baseForms.None? || forall i :: 0 <= i < |e.baseForms.value| ==> e.baseForms.value[i].None?
    ensures DeriveKey(e) == UnknownWord
  {
    PresentEmptyIff(Forms(e));
  }

  /** With at least one non-null form, the key is the kept forms joined by
      ", ", and those are a non-empty list. */
  lemma KeyJoinsForms(e: Entry, i: nat)
    requires i < |Forms(e)| && Forms(e)[i].Some?
    ensures Present(Forms(e)) != []
    ensures DeriveKey(e) == Join(Present(Forms(e)), Separator)
  {
    PresentEmptyIff(Forms(e));
  }

  /** With a non-empty list of forms none of which is null, the key joins all
      of them in their original order. */
  lemma KeyJoinsAllForms(e: Entry)
    requires |Forms(e)| > 0 && forall i :: 0 <= i < |Forms(e)| ==> Forms(e)[i].Some?
    ensures DeriveKey(e) == Join(Values(Forms(e)), Separator)
  {
    PresentAllSome(Forms(e));
    assert Present(Forms(e)) == Values(Forms(e));
  }

  /** The string forms of a list with no null element. */
  function Values(xs: seq<Option<string>>): seq<string>
    requires forall i :: 0 <= i < |xs| ==> xs[i].Some?
  {
    seq(|xs|, i requires 0 <= i < |xs| => xs[i].value)
  }

  // ---------------------------------------------------------------------------
  // Splitting a key back into its forms
  // ---------------------------------------------------------------------------

  /** The position of the first comma of `s`. */
  function FirstComma(s: string): (k: nat)
    requires ',' in s
    ensures k < |s| && s[k] == ',' && ',' !in s[..k]
  {
    if s[0] == ',' then 0
    else
      assert s == [s[0]] + s[1..];
      var k := 1 + FirstComma(s[1..]);
      assert s[..k] == [s[0]] + s[1..][..k - 1];
      k
  }

  lemma FirstCommaAt(s: string, k: nat)
    requires k < |s| && s[k] == ',' && ',' !in s[..k]
    ensures FirstComma(s) == k
  {
  }

  /** Cuts a key at each comma and skips the two characters of the separator
      there (so "a,b" gives ["a", ""]); it is the inverse of `Join` only for
      parts that satisfy `NoComma`. */
  function SplitKey(s: string): (parts: seq<string>)
    ensures |parts| > 0
    decreases |s|
  {
    if ',' !in s then [s]
    else
      var k := FirstComma(s);
      var rest := if k + 2 <= |s| then s[k + 2..] else [];
      [s[..k]] + SplitKey(rest)
  }

  predicate NoComma(parts: seq<string>) {
    forall i :: 0 <= i < |parts| ==> ',' !in parts[i]
  }

  /** Joining with ", " loses nothing when no part holds a comma. */
  lemma {:induction false} SplitJoin(parts: seq<string>)
    requires |parts| > 0 && NoComma(parts)
    ensures SplitKey(Join(parts, Separator)) == parts
  {
    if |parts| > 1 {
      var head, tail := parts[0], Join(parts[1..], Separator);
      var s := head + Separator + tail;
      assert s[..|head|] == head;
      assert s[|head|] == ',';
      FirstCommaAt(s, |head|);
      assert s[|head| + 2..] == tail;
      assert NoComma(parts[1..]) by {
        forall i | 0 <= i < |parts[1..]| ensures ',' !in parts[1..][i] {
          assert parts[1..][i] == parts[i + 1];
        }
      }
      SplitJoin(parts[1..]);
      assert parts == [head] + parts[1..];
    } else {
      assert ',' !in parts[0];
    }
  }

  /** The key determines the kept forms whenever none of them holds a comma. */
  lemma KeyRecoversForms(e: Entry)
    requires Present(Forms(e)) != [] && NoComma(Present(Forms(e)))
    ensures SplitKey(DeriveKey(e)) == Present(Forms(e))
  {
    SplitJoin(Present(Forms(e)));
  }

  // ---------------------------------------------------------------------------
  // The dictionary
  // ---------------------------------------------------------------------------

  /** `res[word_string] = definition` for one entry. */
  function Insert(res: map<string, DefValue>, e: Entry): (res': map<string, DefValue>)
    ensures res'.Keys == res.Keys + {DeriveKey(e)}
    ensures res'[DeriveKey(e)] == DeriveDefinition(e)
    ensures forall k :: k in res && k != DeriveKey(e) ==> res'[k] == res[k]
  {
    res[DeriveKey(e) := DeriveDefinition(e)]
  }

  /** The dictionary after processing `entries` in order, starting empty. */
  function Transform(entries: seq<Entry>): map<string, DefValue>
    decreases |entries|
  {
    if entries == [] then map[]
    else Insert(Transform(entries[..|entries| - 1]), entries[|entries| - 1])
  }

  /** The keys derived from all entries. */
  function DerivedKeys(entries: seq<Entry>): set<string> {
    set i | 0 <= i < |entries| :: DeriveKey(entries[i])
  }

  lemma DerivedKeysSnoc(entries: seq<Entry>, e: Entry)
    ensures DerivedKeys(entries + [e]) == DerivedKeys(entries) + {DeriveKey(e)}
  {
    var s := entries + [e];
    forall k | k in DerivedKeys(s) ensures k in DerivedKeys(entries) + {DeriveKey(e)} {
      var i :| 0 <= i < |s| && DeriveKey(s[i]) == k;
      if i < |entries| {
        assert s[i] == entries[i];
      }
    }
    forall k | k in DerivedKeys(entries) ensures k in DerivedKeys(s) {
      var i :| 0 <= i < |entries| && DeriveKey(entries[i]) == k;
      assert s[i] == entries[i];
    }
    assert s[|entries|] == e;
  }

  /** The output keys are exactly the derived keys, so there are at most as
      many keys as entries. */
  lemma {:induction false} TransformKeys(entries: seq<Entry>)
    ensures Transform(entries).Keys == DerivedKeys(entries)
    ensures |Transform(entries)| <= |entries|
  {
    if entries != [] {
      var init := entries[..|entries| - 1];
      TransformKeys(init);
      assert entries == init + [entries[|entries| - 1]];
      DerivedKeysSnoc(init, entries[|entries| - 1]);
    }
  }

  /** Last write wins: an entry that no later entry shares its key with
      provides that key's value. */
  lemma {:induction false} TransformLastWriteWins(entries: seq<Entry>, j: nat)
    requires j < |entries|
    requires forall j' :: j < j' < |entries| ==> DeriveKey(entries[j']) != DeriveKey(entries[j])
    ensures DeriveKey(entries[j]) in Transform(entries)
    ensures Transform(entries)[DeriveKey(entries[j])] == DeriveDefinition(entries[j])
    decreases |entries|
  {
    var n := |entries|;
    if j < n - 1 {
      var init := entries[..n - 1];
      assert init[j] == entries[j];
      forall j' | j < j' < |init| ensures DeriveKey(init[j']) != DeriveKey(init[j]) {
        assert init[j'] == entries[j'];
      }
      TransformLastWriteWins(init, j);
    }
  }

  /** The loop of the script: `res = {}` and one insertion per entry. */
  method TransformEntries(rawData: seq<Entry>) returns (res: map<string, DefValue>)
    ensures res == Transform(rawData)
    ensures res.Keys == DerivedKeys(rawData) && |res| <= |rawData|
    ensures rawData == [] ==> res == map[]
  {
    res := map[];
    var i := 0;
    while i < |rawData|
      invariant 0 <= i <= |rawData|
      invariant res == Transform(rawData[..i])
    {
      var entry := rawData[i];
      var wordString := DeriveKey(entry);
      var definition := DeriveDefinition(entry);
      res := res[wordString := definition];
      assert rawData[..i + 1][..i] == rawData[..i];
      i := i + 1;
    }
    assert rawData[..i] == rawData;
    TransformKeys(rawData);
  }
}
