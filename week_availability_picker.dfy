/**
 * The availability picker: a slot `(day, hour)` is keyed by the text
 * `${day}_${hour}`; the selection is a JavaScript object from key to boolean
 * that a click flips one key at a time; submitting lists the slots whose key
 * maps to `true`, decoded back with `split("_")` and `Number`.
 */
module WeekAvailabilityPicker {
  import opened Js
  import opened Slots

  /** `${day}_${hour}`. */
  function Encode(day: int, hour: int): string
  {
    IntToString(day) + "_" + IntToString(hour)
  }

  /**
   * `const [day, hour] = k.split("_")` followed by `Number(day)` and
   * `Number(hour)`. A key with a single field leaves `hour` undefined, and a
   * field that is not decimal integer text is outside the model: both give `None`.
   */
  function Decode(key: string): Option<Slot>
  {
    var parts := Split(key, '_');
    if |parts| < 2 then None
    else
      match (ParseInteger(parts[0]), ParseInteger(parts[1]))
      case (Some(d), Some(h)) => Some(Slot(d, h))
      case _ => None
  }

  /** Decoding the key of a slot gives that slot back. */
  lemma DecodeEncode(day: int, hour: int)
    ensures Decode(Encode(day, hour)) == Some(Slot(day, hour))
  {
    var a, b := IntToString(day), IntToString(hour);
    ParseIntToString(day);
    ParseIntToString(hour);
    assert Encode(day, hour) == a + ['_'] + b;
    SplitAfterField(a, '_', b);
    assert Split(b, '_') == [b];
  }

  /** Distinct slots have distinct keys. */
  lemma EncodeInjective(s: Slot, t: Slot)
    requires Encode(s.day, s.hour) == Encode(t.day, t.hour)
    ensures s == t
  {
    DecodeEncode(s.day, s.hour);
    DecodeEncode(t.day, t.hour);
  }

  /** `key` is the key of some slot: it decodes, and re-encodes to itself. */
  predicate IsSlotKey(key: string)
  {
    Decode(key).Some? && Encode(Decode(key).value.day, Decode(key).value.hour) == key
  }

  /** `key` is the key of a cell of the grid. */
  predicate IsGridKey(key: string)
  {
    IsSlotKey(key) && OnGrid(Decode(key).value)
  }

  lemma EncodeIsSlotKey(s: Slot)
    ensures IsSlotKey(Encode(s.day, s.hour)) && Decode(Encode(s.day, s.hour)) == Some(s)
  {
    DecodeEncode(s.day, s.hour);
  }

  /**
   * One own property of the `selectedSlots` object. Its keys are never
   * integer-like, so `Object.entries` lists them in insertion order.
   */
  datatype Entry = Entry(key: string, value: bool)

  predicate DistinctKeys(o: seq<Entry>)
  {
    forall i, j :: 0 <= i < j < |o| ==> o[i].key != o[j].key
  }

  /** `o[key]`, with `None` for `undefined`. */
  function Lookup(o: seq<Entry>, key: string): (v: Option<bool>)
    ensures v.None? <==> forall i :: 0 <= i < |o| ==> o[i].key != key
    ensures v.Some? ==> Entry(key, v.value) in o
  {
    if |o| == 0 then None
    else if o[0].key == key then Some(o[0].value)
    else Lookup(o[1..], key)
  }

  /**
   * `{ ...o, [key]: value }`: an existing key keeps its place and takes the
   * new value; a new key that is not integer-like (as no slot key is) goes last.
   */
  function Put(o: seq<Entry>, key: string, value: bool): seq<Entry>
  {
    if |o| == 0 then [Entry(key, value)]
    else if o[0].key == key then [Entry(key, value)] + o[1..]
    else [o[0]] + Put(o[1..], key, value)
  }

  /** Reading back after `Put`: the new value at `key`, the old value anywhere else. */
  lemma {:induction false} PutLookup(o: seq<Entry>, key: string, value: bool, k: string)
    ensures Lookup(Put(o, key, value), k) == if k == key then Some(value) else Lookup(o, k)
  {
    if |o| > 0 && o[0].key != key {
      PutLookup(o[1..], key, value, k);
    }
  }

  /** `Put` leaves the existing keys in their places and appends a new key at the end. */
  lemma {:induction false} PutKeys(o: seq<Entry>, key: string, value: bool)
    ensures |Put(o, key, value)| == |o| + (if Lookup(o, key).None? then 1 else 0)
    ensures forall i :: 0 <= i < |o| ==> Put(o, key, value)[i].key == o[i].key
    ensures Lookup(o, key).None? ==> Put(o, key, value)[|o|] == Entry(key, value)
  {
    if |o| > 0 && o[0].key != key {
      PutKeys(o[1..], key, value);
      var r := Put(o, key, value);
      forall i | 0 <= i < |o| ensures r[i].key == o[i].key {
        if i > 0 {
          assert r[i] == Put(o[1..], key, value)[i - 1];
        }
      }
    }
  }

  /** `Put` keeps the keys distinct. */
  lemma PutDistinct(o: seq<Entry>, key: string, value: bool)
    requires DistinctKeys(o)
    ensures DistinctKeys(Put(o, key, value))
  {
    PutKeys(o, key, value);
  }

  /** The cell is drawn selected: `selectedSlots[key]` is truthy. */
  predicate IsSelected(o: seq<Entry>, key: string)
  {
    Lookup(o, key) == Some(true)
  }

  /** `toggleSlot`'s update, `{ ...prev, [key]: !prev[key] }`. */
  function Toggled(o: seq<Entry>, key: string): seq<Entry>
  {
    Put(o, key, !IsSelected(o, key))
  }

  /** A toggle flips the selection of its own key and of no other. */
  lemma ToggleFlipsOnlyItsKey(o: seq<Entry>, key: string)
    ensures IsSelected(Toggled(o, key), key) == !IsSelected(o, key)
    ensures forall k :: k != key ==> Lookup(Toggled(o, key), k) == Lookup(o, k)
  {
    forall k ensures Lookup(Toggled(o, key), k) == if k == key then Some(!IsSelected(o, key)) else Lookup(o, k) {
      PutLookup(o, key, !IsSelected(o, key), k);
    }
  }

  /** A key never toggled before becomes `true`; toggled again it is `false`, not selected. */
  lemma ToggleAbsentKey(o: seq<Entry>, key: string)
    requires Lookup(o, key).None?
    ensures Lookup(Toggled(o, key), key) == Some(true)
    ensures Lookup(Toggled(Toggled(o, key), key), key) == Some(false)
  {
    PutLookup(o, key, true, key);
    PutLookup(Toggled(o, key), key, false, key);
  }

  /** Toggling twice restores whether the slot is selected, and every other key. */
  lemma ToggleTwice(o: seq<Entry>, key: string)
    ensures IsSelected(Toggled(Toggled(o, key), key), key) == IsSelected(o, key)
    ensures forall k :: k != key ==> Lookup(Toggled(Toggled(o, key), key), k) == Lookup(o, k)
  {
    ToggleFlipsOnlyItsKey(o, key);
    ToggleFlipsOnlyItsKey(Toggled(o, key), key);
  }

  /** `Object.entries(o).filter(([_, v]) => v)`, keeping only the keys. */
  function TrueKeys(o: seq<Entry>): seq<string>
  {
    if |o| == 0 then []
    else (if o[0].value then [o[0].key] else []) + TrueKeys(o[1..])
  }

  /** `.map(([k]) => ...)`: each key decoded into a slot. */
  function DecodeAll(keys: seq<string>): seq<Option<Slot>>
  {
    seq(|keys|, i requires 0 <= i < |keys| => Decode(keys[i]))
  }

  /** `handleSubmit`'s `selected`: the decoded keys of the `true` entries, in insertion order. */
  function Submitted(o: seq<Entry>): seq<Option<Slot>>
  {
    DecodeAll(TrueKeys(o))
  }

  lemma DistinctTail(o: seq<Entry>)
    requires |o| > 0 && DistinctKeys(o)
    ensures DistinctKeys(o[1..])
    ensures forall i :: 0 <= i < |o[1..]| ==> o[1..][i].key != o[0].key
  {
    forall i, j | 0 <= i < j < |o[1..]| ensures o[1..][i].key != o[1..][j].key {
      assert o[1..][i] == o[i + 1] && o[1..][j] == o[j + 1];
    }
    forall i | 0 <= i < |o[1..]| ensures o[1..][i].key != o[0].key {
      assert o[1..][i] == o[i + 1];
    }
  }

  /** With distinct keys, the filter lists each selected key exactly once and nothing else. */
  lemma {:induction false} TrueKeysExact(o: seq<Entry>)
    requires DistinctKeys(o)
    ensures forall k :: k in TrueKeys(o) <==> IsSelected(o, k)
    ensures forall i, j :: 0 <= i < j < |TrueKeys(o)| ==> TrueKeys(o)[i] != TrueKeys(o)[j]
    ensures forall k :: k in TrueKeys(o) ==> exists i :: 0 <= i < |o| && o[i].key == k
  {
    if |o| > 0 {
      var rest := o[1..];
      DistinctTail(o);
      TrueKeysExact(rest);
      var tr := TrueKeys(rest);
      assert o[0].key !in tr;
      var t := TrueKeys(o);
      forall k | k in t ensures exists i :: 0 <= i < |o| && o[i].key == k {
        if k != o[0].key || !o[0].value {
          assert k in tr;
          var i :| 0 <= i < |rest| && rest[i].key == k;
          assert o[i + 1].key == k;
        } else {
          assert o[0].key == k;
        }
      }
      if o[0].value {
        forall i, j | 0 <= i < j < |t| ensures t[i] != t[j] {
          assert t[j] == tr[j - 1];
          if i > 0 {
            assert t[i] == tr[i - 1];
          } else {
            assert t[j] in tr;
          }
        }
      }
    }
  }

  /** Decoding distinct slot keys gives distinct slots, exactly the slots of those keys. */
  lemma DecodeAllExact(keys: seq<string>)
    requires forall i :: 0 <= i < |keys| ==> IsSlotKey(keys[i])
    requires forall i, j :: 0 <= i < j < |keys| ==> keys[i] != keys[j]
    ensures forall i :: 0 <= i < |keys| ==> DecodeAll(keys)[i].Some?
    ensures forall s :: Some(s) in DecodeAll(keys) <==> Encode(s.day, s.hour) in keys
    ensures forall i, j :: 0 <= i < j < |keys| ==> DecodeAll(keys)[i] != DecodeAll(keys)[j]
  {
    var d := DecodeAll(keys);
    forall s: Slot ensures Some(s) in d <==> Encode(s.day, s.hour) in keys {
      if Some(s) in d {
        var i :| 0 <= i < |d| && d[i] == Some(s);
        assert keys[i] == Encode(s.day, s.hour);
      }
      if Encode(s.day, s.hour) in keys {
        var i :| 0 <= i < |keys| && keys[i] == Encode(s.day, s.hour);
        EncodeIsSlotKey(s);
        assert d[i] == Some(s);
      }
    }
  }

  /**
   * When the keys are distinct slot keys (as `toggleSlot` makes them), the
   * submitted list holds exactly the selected slots, each once.
   */
  lemma SubmittedExact(o: seq<Entry>)
    requires DistinctKeys(o)
    requires forall i :: 0 <= i < |o| ==> IsSlotKey(o[i].key)
    ensures forall i :: 0 <= i < |Submitted(o)| ==> Submitted(o)[i].Some?
    ensures forall s :: Some(s) in Submitted(o) <==> IsSelected(o, Encode(s.day, s.hour))
    ensures forall i, j :: 0 <= i < j < |Submitted(o)| ==> Submitted(o)[i] != Submitted(o)[j]
  {
    var keys := TrueKeys(o);
    TrueKeysExact(o);
    forall i | 0 <= i < |keys| ensures IsSlotKey(keys[i]) {
      assert keys[i] in keys;
    }
    DecodeAllExact(keys);
  }

  /**
   * For a selection whose keys are distinct grid keys, the submitted list holds
   * exactly the selected slots, each once, and all of them on the grid.
   */
  lemma SubmittedOnGrid(o: seq<Entry>)
    requires DistinctKeys(o) && forall i :: 0 <= i < |o| ==> IsGridKey(o[i].key)
    ensures forall i :: 0 <= i < |Submitted(o)| ==> Submitted(o)[i].Some? && OnGrid(Submitted(o)[i].value)
    ensures forall s :: Some(s) in Submitted(o) <==> IsSelected(o, Encode(s.day, s.hour))
    ensures forall i, j :: 0 <= i < j < |Submitted(o)| ==> Submitted(o)[i] != Submitted(o)[j]
  {
    var keys := TrueKeys(o);
    TrueKeysExact(o);
    forall i | 0 <= i < |keys| ensures IsGridKey(keys[i]) {
      assert keys[i] in keys;
      var m :| 0 <= m < |o| && o[m].key == keys[i];
    }
    DecodeAllExact(keys);
    forall s ensures Some(s) in Submitted(o) <==> IsSelected(o, Encode(s.day, s.hour)) {
    }
  }

  /** Taking the values out of a list of `Some`s keeps which values occur. */
  lemma {:induction false} ValuesOf(sub: seq<Option<Slot>>, values: seq<Slot>)
    requires |values| == |sub| && forall i :: 0 <= i < |values| ==> sub[i] == Some(values[i])
    ensures forall s :: s in values <==> Some(s) in sub
    ensures (forall i, j :: 0 <= i < j < |sub| ==> sub[i] != sub[j]) ==>
      forall i, j :: 0 <= i < j < |values| ==> values[i] != values[j]
  {
    forall s ensures s in values <==> Some(s) in sub {
      if s in values {
        var i :| 0 <= i < |values| && values[i] == s;
        assert sub[i] == Some(s);
      }
      if Some(s) in sub {
        var i :| 0 <= i < |sub| && sub[i] == Some(s);
        assert values[i] == s;
      }
    }
  }

  /** A toggle of a grid cell keeps the keys distinct and all of them grid keys. */
  lemma ToggleKeepsGridKeys(o: seq<Entry>, s: Slot)
    requires DistinctKeys(o) && forall i :: 0 <= i < |o| ==> IsGridKey(o[i].key)
    requires OnGrid(s)
    ensures DistinctKeys(Toggled(o, Encode(s.day, s.hour)))
    ensures forall i :: 0 <= i < |Toggled(o, Encode(s.day, s.hour))| ==> IsGridKey(Toggled(o, Encode(s.day, s.hour))[i].key)
  {
    var key := Encode(s.day, s.hour);
    var v := !IsSelected(o, key);
    var r := Put(o, key, v);
    EncodeIsSlotKey(s);
    PutDistinct(o, key, v);
    PutKeys(o, key, v);
    forall i | 0 <= i < |r| ensures IsGridKey(r[i].key) {
      if i < |o| {
        assert r[i].key == o[i].key;
      } else {
        assert r[i].key == key;
      }
    }
  }

  /** The picker component's state. */
  class Picker {
    /** `selectedSlots`, starting as `{}`. */
    var selectedSlots: seq<Entry>

    /** Keys are distinct and every key is the key of a grid cell. */
    ghost predicate Valid()
      reads this
    {
      DistinctKeys(selectedSlots)
      && forall i :: 0 <= i < |selectedSlots| ==> IsGridKey(selectedSlots[i].key)
    }

    constructor ()
      ensures Valid() && selectedSlots == []
    {
      selectedSlots := [];
    }

    /** `toggleSlot(day, hour)`. */
    method ToggleSlot(day: int, hour: int)
      modifies this
      ensures selectedSlots == Toggled(old(selectedSlots), Encode(day, hour))
      ensures old(Valid()) && OnGrid(Slot(day, hour)) ==> Valid()
    {
      var key := Encode(day, hour);
      if Valid() && OnGrid(Slot(day, hour)) {
        ToggleKeepsGridKeys(selectedSlots, Slot(day, hour));
      }
      selectedSlots := Put(selectedSlots, key, !IsSelected(selectedSlots, key));
    }

    /** A click on the cell of column `dayIdx` in row `row`: `toggleSlot(dayIdx, hour)`. */
    method ClickCell(dayIdx: nat, row: nat)
      requires Valid()
      requires dayIdx < DayCount && row < |Hours|
      modifies this
      ensures Valid()
      ensures selectedSlots == Toggled(old(selectedSlots), Encode(dayIdx, Hours[row]))
    {
      HoursAre();
      ToggleSlot(dayIdx, Hours[row]);
    }

    /**
     * `handleSubmit`'s `selected` list: the selected slots, each once, all on
     * the grid, in the order their keys were first toggled.
     */
    method HandleSubmit() returns (selected: seq<Slot>)
      requires Valid()
      ensures |selected| == |Submitted(selectedSlots)|
      ensures forall i :: 0 <= i < |selected| ==> Submitted(selectedSlots)[i] == Some(selected[i])
      ensures forall s :: s in selected <==> OnGrid(s) && IsSelected(selectedSlots, Encode(s.day, s.hour))
      ensures forall i, j :: 0 <= i < j < |selected| ==> selected[i] != selected[j]
    {
      var sub := Submitted(selectedSlots);
      SubmittedOnGrid(selectedSlots);
      selected := seq(|sub|, i requires 0 <= i < |sub| => sub[i].value);
      ValuesOf(sub, selected);
    }
  }
}
