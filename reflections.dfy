/** The reflection journal kept in `localStorage`: one record per surah under
    the key `"daily_reflection_" + surahNumber`, written by the daily page
    and listed, edited and deleted by the history page. Values are the
    records themselves; their JSON encoding is not modelled. */
module Reflections {
  import opened Options
  import opened JsText

  /** The object stored under a reflection key. */
  datatype Record = Record(date: string, ayahCompleted: string, reflection: string, surahNumber: int)

  /** The contents of `localStorage`, key by key. */
  type Storage = map<string, Record>

  const KeyPrefix: string := "daily_reflection_"

  /** `'daily_reflection_' + surahNumber`. */
  function KeyFor(n: int): (k: string)
    ensures KeyPrefix <= k
    ensures ParseDecimal(k[|KeyPrefix|..]) == Some(n)
  {
    var k := KeyPrefix + DecimalString(n);
    assert k[|KeyPrefix|..] == DecimalString(n);
    DecimalRoundTrip(n);
    k
  }

  /** Different surahs never share a key. */
  lemma KeyForInjective(a: int, b: int)
    requires KeyFor(a) == KeyFor(b)
    ensures a == b
  {
  }

  // ----- the operations, on the storage as a value -----

  /** The daily page's save: the record for surah `n` is written whole,
      replacing whatever was stored under its key. */
  function SaveDaily(m: Storage, n: int, date: string, ayahCompleted: string, reflection: string): Storage {
    m[KeyFor(n) := Record(date, ayahCompleted, reflection, n)]
  }

  /** The daily page's read: the stored `ayahCompleted` and `reflection`, or
      `''` for both when nothing is stored (`JSON.parse(… || '{}')`). */
  function DailyFields(m: Storage, n: int): (string, string) {
    var k := KeyFor(n);
    if k in m then (m[k].ayahCompleted, m[k].reflection) else ("", "")
  }

  /** `localStorage.getItem(key)`, parsed: the stored record, or `None`
      (`null`) when the key is absent. */
  function Lookup(m: Storage, key: string): Option<Record> {
    if key in m then Some(m[key]) else None
  }

  /** `localStorage.removeItem(key)`. */
  function Remove(m: Storage, key: string): Storage {
    m - {key}
  }

  /** The history page's edit: the record read when editing began, with its
      two editable fields replaced, written back under its key. */
  function CommitEdit(m: Storage, key: string, data: Record, ayahCompleted: string, reflection: string): Storage {
    m[key := data.(ayahCompleted := ayahCompleted, reflection := reflection)]
  }

  /** `Object.keys(localStorage).filter(k => k.startsWith('daily_reflection_'))`, as a set. */
  ghost function ReflectionKeys(m: Storage): set<string> {
    set k | k in m && KeyPrefix <= k
  }

  /** Every reflection key is the key of the surah its record names. */
  ghost predicate Consistent(m: Storage) {
    forall k :: k in m && KeyPrefix <= k ==> k == KeyFor(m[k].surahNumber)
  }

  /** In a consistent store each surah has at most one reflection: two
      different reflection keys hold records of different surahs. */
  lemma ConsistentOnePerSurah(m: Storage, k1: string, k2: string)
    requires Consistent(m)
    requires k1 in ReflectionKeys(m) && k2 in ReflectionKeys(m) && k1 != k2
    ensures m[k1].surahNumber != m[k2].surahNumber
  {
  }

  // ----- what the operations promise -----

  /** A saved record reads back whole, and the daily page shows its fields. */
  lemma SaveThenRead(m: Storage, n: int, date: string, ayahCompleted: string, reflection: string)
    ensures var m' := SaveDaily(m, n, date, ayahCompleted, reflection);
            KeyFor(n) in m' && m'[KeyFor(n)] == Record(date, ayahCompleted, reflection, n)
            && DailyFields(m', n) == (ayahCompleted, reflection)
  {
  }

  /** Saving one surah's reflection changes no other key, and in particular
      no other surah's reflection. */
  lemma SaveLeavesOthers(m: Storage, n: int, date: string, ayahCompleted: string, reflection: string, other: int)
    requires other != n
    ensures var m' := SaveDaily(m, n, date, ayahCompleted, reflection);
            DailyFields(m', other) == DailyFields(m, other)
            && (forall k :: k != KeyFor(n) ==> (k in m' <==> k in m) && (k in m ==> m'[k] == m[k]))
  {
  }

  /** The saved record appears in the history, next to the earlier ones. */
  lemma SaveIsListed(m: Storage, n: int, date: string, ayahCompleted: string, reflection: string)
    ensures ReflectionKeys(SaveDaily(m, n, date, ayahCompleted, reflection)) == ReflectionKeys(m) + {KeyFor(n)}
  {
  }

  /** A surah with nothing stored shows empty fields. */
  lemma ReadAbsentIsEmpty(m: Storage, n: int)
    requires KeyFor(n) !in m
    ensures DailyFields(m, n) == ("", "")
  {
  }

  /** After a delete the key is gone and nothing else changed; deleting an
      absent key, or deleting twice, changes nothing. */
  lemma RemoveExactlyOne(m: Storage, key: string)
    ensures key !in Remove(m, key)
    ensures forall k :: k != key ==> (k in Remove(m, key) <==> k in m) && (k in m ==> Remove(m, key)[k] == m[k])
    ensures key !in m ==> Remove(m, key) == m
    ensures Remove(Remove(m, key), key) == Remove(m, key)
    ensures ReflectionKeys(Remove(m, key)) == ReflectionKeys(m) - {key}
  {
  }

  /** The history page's read finds a saved record whole, finds nothing
      after a delete, and finds the edited record after an edit. */
  lemma LookupAfterOperations(m: Storage, n: int, date: string, ayahCompleted: string, reflection: string, key: string)
    ensures Lookup(SaveDaily(m, n, date, ayahCompleted, reflection), KeyFor(n)) == Some(Record(date, ayahCompleted, reflection, n))
    ensures Lookup(Remove(m, key), key) == None
    ensures Lookup(m, key).Some? ==>
              Lookup(CommitEdit(m, key, Lookup(m, key).value, ayahCompleted, reflection), key)
              == Some(m[key].(ayahCompleted := ayahCompleted, reflection := reflection))
  {
  }

  /** The daily page shows empty fields for a surah whose reflection was deleted. */
  lemma RemoveThenRead(m: Storage, n: int)
    ensures DailyFields(Remove(m, KeyFor(n)), n) == ("", "")
  {
  }

  /** Editing a stored record replaces only its `ayahCompleted` and
      `reflection`: its date, its surah number and every other key stay. */
  lemma EditKeepsTheRest(m: Storage, key: string, ayahCompleted: string, reflection: string)
    requires key in m
    ensures var m' := CommitEdit(m, key, m[key], ayahCompleted, reflection);
            m'.Keys == m.Keys
            && m'[key].date == m[key].date
            && m'[key].surahNumber == m[key].surahNumber
            && m'[key].ayahCompleted == ayahCompleted
            && m'[key].reflection == reflection
            && (forall k :: k in m && k != key ==> m'[k] == m[k])
            && ReflectionKeys(m') == ReflectionKeys(m)
  {
  }

  /** Saving, editing and deleting keep every reflection under its own surah's key. */
  lemma OperationsKeepConsistent(m: Storage, n: int, date: string, ayahCompleted: string, reflection: string, key: string)
    requires Consistent(m)
    ensures Consistent(SaveDaily(m, n, date, ayahCompleted, reflection))
    ensures Consistent(Remove(m, key))
    ensures key in m ==> Consistent(CommitEdit(m, key, m[key], ayahCompleted, reflection))
  {
  }

  // ----- localStorage as a mutable object -----

  /** The browser's `localStorage` as the pages use it. */
  class LocalStore {
    var items: Storage

    constructor (initial: Storage)
      ensures items == initial
    {
      items := initial;
    }

    /** The "Save Reflection" click handler of the daily page. `today` is
        `new Date().toISOString().slice(0, 10)`. */
    method SaveReflection(n: int, today: string, ayahCompleted: string, reflection: string)
      modifies this
      ensures items == SaveDaily(old(items), n, today, ayahCompleted, reflection)
      ensures Consistent(old(items)) ==> Consistent(items)
    {
      items := items[KeyFor(n) := Record(today, ayahCompleted, reflection, n)];
      if Consistent(old(items)) {
        OperationsKeepConsistent(old(items), n, today, ayahCompleted, reflection, KeyFor(n));
      }
    }

    /** The daily page's read of the saved fields, with `''` defaults. */
    method ReadDaily(n: int) returns (ayahCompleted: string, reflection: string)
      ensures (ayahCompleted, reflection) == DailyFields(items, n)
    {
      var fields := DailyFields(items, n);
      ayahCompleted, reflection := fields.0, fields.1;
    }

    /** The history page's key list: every key that starts with the
        reflection prefix, each once, in an unspecified order. An empty
        list is the "No reflections saved yet." page. */
    method HistoryKeys() returns (keys: seq<string>)
      ensures forall k :: k in keys <==> k in items && KeyPrefix <= k
      ensures forall i, j :: 0 <= i < j < |keys| ==> keys[i] != keys[j]
      ensures |keys| == 0 <==> ReflectionKeys(items) == {}
    {
      keys := [];
      var rest := items.Keys;
      while rest != {}
        invariant rest <= items.Keys
        invariant forall k :: k in keys <==> k in items && KeyPrefix <= k && k !in rest
        invariant forall i, j :: 0 <= i < j < |keys| ==> keys[i] != keys[j]
        decreases rest
      {
        var k :| k in rest;
        if KeyPrefix <= k {
          keys := keys + [k];
        }
        rest := rest - {k};
      }
      if |keys| == 0 {
        assert forall k :: k in items ==> k !in ReflectionKeys(items);
      } else {
        var k := keys[0];
        assert k in keys;
        assert k in items && KeyPrefix <= k;
        assert k in ReflectionKeys(items);
      }
    }

    /** The Delete click handler (after confirmation). */
    method Delete(key: string)
      modifies this
      ensures items == Remove(old(items), key)
      ensures Consistent(old(items)) ==> Consistent(items)
    {
      items := items - {key};
      if Consistent(old(items)) {
        OperationsKeepConsistent(old(items), 0, "", "", "", key);
      }
    }

    /** The Edit click handler's `JSON.parse(localStorage.getItem(key))`:
        the record to edit, or `None` for a key with nothing stored. */
    method ReadForEdit(key: string) returns (data: Option<Record>)
      ensures data == Lookup(items, key)
    {
      data := Lookup(items, key);
    }

    /** The Save click handler of an edited record: the snapshot taken at
        Edit, with the two new field values, is written back. */
    method SaveEdit(key: string, data: Record, ayahCompleted: string, reflection: string)
      modifies this
      ensures items == CommitEdit(old(items), key, data, ayahCompleted, reflection)
    {
      items := items[key := data.(ayahCompleted := ayahCompleted, reflection := reflection)];
    }

    /** An edit from start to finish: read the record, replace its editable
        fields, write it back. A key with nothing stored fails (the page's
        handler throws on the missing record) and changes nothing. */
    method Edit(key: string, ayahCompleted: string, reflection: string) returns (ok: bool)
      modifies this
      ensures ok <==> key in old(items)
      ensures ok ==> items == CommitEdit(old(items), key, old(items)[key], ayahCompleted, reflection)
      ensures !ok ==> items == old(items)
      ensures Consistent(old(items)) ==> Consistent(items)
    {
      var data := ReadForEdit(key);
      ok := data.Some?;
      if ok {
        SaveEdit(key, data.value, ayahCompleted, reflection);
        if Consistent(old(items)) {
          OperationsKeepConsistent(old(items), 0, "", ayahCompleted, reflection, key);
        }
      }
    }
  }
}
