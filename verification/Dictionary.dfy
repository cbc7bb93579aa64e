/** The dictionary of dict.c: a growable array of key/value pairs kept sorted by key. */
module Dictionary {
  import opened Strings

  /** A slot of the array; the part past `size` is not in use. */
  datatype Slot<+V> = Unused | Entry(k: string, v: V)

  const INITSIZE := 30

  // ------------------------------------------------- sorted runs of slots as maps

  ghost predicate Sorted<V>(s: seq<Slot<V>>) {
    (forall i :: 0 <= i < |s| ==> s[i].Entry?) &&
    (forall i, j :: 0 <= i < j < |s| ==> Less(s[i].k, s[j].k))
  }

  /** The map m holds exactly the bindings of the slots s. */
  ghost predicate Represents<V>(s: seq<Slot<V>>, m: map<string, V>)
    requires Sorted(s)
  {
    (forall i :: 0 <= i < |s| ==> s[i].k in m && m[s[i].k] == s[i].v) &&
    (forall k :: k in m ==> exists i :: 0 <= i < |s| && s[i].k == k)
  }

  /** Position i is where key k belongs in the sorted run s. */
  ghost predicate Belongs<V>(s: seq<Slot<V>>, i: nat, k: string)
    requires Sorted(s)
  {
    i <= |s| &&
    (forall j :: 0 <= j < i ==> Less(s[j].k, k)) &&
    (forall j :: i <= j < |s| ==> Less(k, s[j].k))
  }

  lemma KeysDiffer<V>(s: seq<Slot<V>>, i: nat, j: nat)
    requires Sorted(s) && i < |s| && j < |s| && i != j
    ensures s[i].k != s[j].k
  {
    LessIrreflexive(s[i].k);
  }

  /** Overwriting the value of entry i updates the map at its key. */
  lemma RepresentsUpdate<V>(s: seq<Slot<V>>, m: map<string, V>, i: nat, v: V)
    requires Sorted(s) && Represents(s, m) && i < |s|
    ensures var s' := s[i := Entry(s[i].k, v)];
            Sorted(s') && Represents(s', m[s[i].k := v])
  {
    var s', m' := s[i := Entry(s[i].k, v)], m[s[i].k := v];
    forall j | 0 <= j < |s'| ensures s'[j].k in m' && m'[s'[j].k] == s'[j].v {
      if j != i { KeysDiffer(s, i, j); }
    }
    forall k | k in m' ensures exists j :: 0 <= j < |s'| && s'[j].k == k {
      var j :| 0 <= j < |s| && s[j].k == k;
      assert s'[j].k == k;
    }
  }

  /** Inserting an entry where the order allows adds one binding. */
  lemma RepresentsInsert<V>(s: seq<Slot<V>>, m: map<string, V>, i: nat, k: string, v: V)
    requires Sorted(s) && Represents(s, m) && Belongs(s, i, k)
    ensures var s' := s[..i] + [Entry(k, v)] + s[i..];
            Sorted(s') && Represents(s', m[k := v])
  {
    hide Less;
    var s', m' := s[..i] + [Entry(k, v)] + s[i..], m[k := v];
    InsertSorted(s, i, k, v);
    forall j | 0 <= j < |s'| ensures s'[j].k in m' && m'[s'[j].k] == s'[j].v {
      if j != i {
        KeysDiffer(s', i, j);
        assert s'[j] == s[if j < i then j else j - 1];
      }
    }
    forall k' | k' in m' ensures exists j :: 0 <= j < |s'| && s'[j].k == k' {
      InsertCovers(s, m, i, k, v, k');
    }
  }

  lemma InsertCovers<V>(s: seq<Slot<V>>, m: map<string, V>, i: nat, k: string, v: V, key: string)
    requires Sorted(s) && Represents(s, m) && i <= |s|
    requires key in m || key == k
    ensures var s' := s[..i] + [Entry(k, v)] + s[i..];
            exists j :: 0 <= j < |s'| && s'[j].Entry? && s'[j].k == key
  {
    hide Less;
    var s' := s[..i] + [Entry(k, v)] + s[i..];
    if key == k {
      assert s'[i].Entry? && s'[i].k == key;
    } else {
      var j :| 0 <= j < |s| && s[j].k == key;
      var j' := if j < i then j else j + 1;
      assert s'[j'] == s[j];
    }
  }

  lemma InsertSorted<V>(s: seq<Slot<V>>, i: nat, k: string, v: V)
    requires Sorted(s) && Belongs(s, i, k)
    ensures Sorted(s[..i] + [Entry(k, v)] + s[i..])
  {
  }

  lemma RemoveSorted<V>(s: seq<Slot<V>>, i: nat)
    requires Sorted(s) && i < |s|
    ensures Sorted(s[..i] + s[i + 1..])
  {
  }

  /** Deleting entry i removes its key and nothing else. */
  lemma RepresentsRemove<V>(s: seq<Slot<V>>, m: map<string, V>, i: nat)
    requires Sorted(s) && Represents(s, m) && i < |s|
    ensures var s' := s[..i] + s[i + 1..];
            Sorted(s') && Represents(s', m - {s[i].k})
  {
    var s', m' := s[..i] + s[i + 1..], m - {s[i].k};
    RemoveSorted(s, i);
    forall j | 0 <= j < |s'| ensures s'[j].k in m' && m'[s'[j].k] == s'[j].v {
      var j' := if j < i then j else j + 1;
      assert s'[j] == s[j'];
      KeysDiffer(s, i, j');
    }
    forall k | k in m' ensures exists j :: 0 <= j < |s'| && s'[j].k == k {
      var j :| 0 <= j < |s| && s[j].k == k;
      assert s'[if j < i then j else j - 1] == s[j];
    }
  }

  /** What an insertion does to the map: a taken key is replaced only when the caller
      asked for replacement. */
  function Inserted<V>(m: map<string, V>, k: string, v: V, replace: bool): map<string, V> {
    if k in m && !replace then m else m[k := v]
  }

  class Dict<V> {
    var size: nat
    var avail: nat
    var els: array<Slot<V>>
    /** The dictionary as a map. */
    ghost var contents: map<string, V>

    ghost predicate Valid()
      reads this, els
    {
      size <= avail == els.Length && Sorted(els[..size]) && Represents(els[..size], contents)
    }

    constructor ()
      ensures Valid() && fresh(els) && contents == map[]
    {
      size, avail := 0, INITSIZE;
      els := new Slot<V>[INITSIZE](_ => Unused);
      contents := map[];
    }

    /** `_owl_dict_find_pos`: binary search for the key or the place it belongs. */
    method FindPos(k: string) returns (found: bool, pos: nat)
      requires Valid()
      ensures pos <= size
      ensures found <==> k in contents
      ensures found ==> pos < size && els[pos] == Entry(k, contents[k])
      ensures !found ==> Belongs(els[..size], pos, k)
    {
      ghost var s := els[..size];
      var lo, hi := 0, size;
      while lo < hi
        invariant 0 <= lo <= hi <= size
        invariant forall j :: 0 <= j < lo ==> Less(s[j].k, k)
        invariant forall j :: hi <= j < size ==> Less(k, s[j].k)
      {
        var mid := (lo + hi) / 2;
        assert els[mid] == s[mid];
        if Less(k, els[mid].k) {
          BelowAll(s, mid, k);
          hi := mid;
        } else if Less(els[mid].k, k) {
          AboveAll(s, mid, k);
          lo := mid + 1;
        } else {
          LessTotal(k, els[mid].k);
          return true, mid;
        }
      }
      LessIrreflexive(k);
      return false, lo;
    }

    /** `owl_dict_find_element`. */
    method Find(k: string) returns (v: Option<V>)
      requires Valid()
      ensures v == if k in contents then Some(contents[k]) else None
    {
      var found, pos := FindPos(k);
      if !found { return None; }
      return Some(els[pos].v);
    }

    /** `owl_dict_insert_element`. `replace` says whether a callback was given for the
        value being replaced; that value is returned for the caller to dispose of. */
    method Insert(k: string, v: V, replace: bool) returns (status: int, replaced: Option<V>)
      requires Valid()
      modifies this, els
      ensures Valid() && (els == old(els) || fresh(els))
      ensures contents == Inserted(old(contents), k, v, replace)
      ensures status == if k in old(contents) && !replace then -2 else 0
      ensures replaced == if k in old(contents) && replace then Some(old(contents)[k]) else None
    {
      hide Sorted;
      hide Represents;
      hide Belongs;
      var found, pos := FindPos(k);
      if found && replace {
        replaced := Some(els[pos].v);
        ReplaceAt(pos, k, v);
        return 0, replaced;
      } else if found {
        return -2, None;
      }
      if size + 1 > avail {
        Grow();
      }
      InsertAt(pos, k, v);
      return 0, None;
    }

    method ReplaceAt(pos: nat, k: string, v: V)
      requires Valid() && pos < size && els[pos].Entry? && els[pos].k == k
      modifies this`contents, els
      ensures Valid() && contents == old(contents)[k := v]
    {
      ghost var before := els[..size];
      hide Sorted;
      hide Represents;
      RepresentsUpdate(before, contents, pos, v);
      els[pos] := Entry(els[pos].k, v);
      contents := contents[k := v];
      assert els[..size] == before[pos := Entry(before[pos].k, v)];
    }

    method InsertAt(pos: nat, k: string, v: V)
      requires Valid() && pos <= size < avail && Belongs(els[..size], pos, k)
      modifies this`size, this`contents, els
      ensures Valid() && contents == old(contents)[k := v]
    {
      ghost var before := els[..size];
      hide Sorted;
      hide Represents;
      hide Belongs;
      RepresentsInsert(before, contents, pos, k, v);
      OpenGap(pos, Entry(k, v), before);
      size := size + 1;
      contents := contents[k := v];
    }

    /** The `memmove` of an insertion: every entry from pos on moves up one slot. */
    method OpenGap(pos: nat, e: Slot<V>, ghost before: seq<Slot<V>>)
      requires pos <= size < els.Length && before == els[..size]
      modifies els
      ensures els[..size + 1] == before[..pos] + [e] + before[pos..]
    {
      forall i | pos < i <= size {
        els[i] := els[i - 1];
      }
      els[pos] := e;
      GapFilled(before, els[..size + 1], pos, e);
    }

    /** Growth by half, at least to the size needed. */
    method Grow()
      requires Valid() && size == avail
      modifies this`avail, this`els
      ensures Valid() && fresh(els) && size < els.Length
      ensures els[..size] == old(els[..size])
    {
      hide Sorted;
      hide Represents;
      ghost var before := els[..size];
      var avail' := if avail * 3 / 2 > size + 1 then avail * 3 / 2 else size + 1;
      var bigger := new Slot<V>[avail'](_ => Unused);
      forall i | 0 <= i < size {
        bigger[i] := els[i];
      }
      els, avail := bigger, avail';
      assert els[..size] == before;
    }

    /** `owl_dict_remove_element`: returns the value removed, if any. */
    method Remove(k: string) returns (v: Option<V>)
      requires Valid()
      modifies this`size, this`contents, els
      ensures Valid()
      ensures contents == old(contents) - {k}
      ensures v == if k in old(contents) then Some(old(contents)[k]) else None
    {
      ghost var before := els[..size];
      var found, pos := FindPos(k);
      if !found {
        assert contents - {k} == contents;
        return None;
      }
      hide Sorted;
      hide Represents;
      hide Belongs;
      RepresentsRemove(before, contents, pos);
      v := Some(els[pos].v);
      CloseGap(pos, before);
      size := size - 1;
      contents := contents - {k};
    }

    /** The shifting loop of a removal: entries after pos move down one slot. */
    method CloseGap(pos: nat, ghost before: seq<Slot<V>>)
      requires pos < size <= els.Length && before == els[..size]
      modifies els
      ensures els[..size - 1] == before[..pos] + before[pos + 1..]
    {
      var i := pos;
      while i < size - 1
        invariant pos <= i < size
        invariant forall j :: 0 <= j < pos ==> els[j] == before[j]
        invariant forall j :: pos <= j < i ==> els[j] == before[j + 1]
        invariant forall j :: i < j < size ==> els[j] == before[j]
      {
        els[i] := els[i + 1];
        i := i + 1;
      }
      GapClosed(before, els[..size - 1], pos);
    }
  }

  lemma GapClosed<T>(before: seq<T>, after: seq<T>, pos: nat)
    requires pos < |before| == |after| + 1
    requires forall j :: 0 <= j < pos ==> after[j] == before[j]
    requires forall j :: pos <= j < |after| ==> after[j] == before[j + 1]
    ensures after == before[..pos] + before[pos + 1..]
  {
  }

  lemma GapFilled<T>(before: seq<T>, after: seq<T>, pos: nat, x: T)
    requires pos <= |before| == |after| - 1
    requires forall j :: 0 <= j < pos ==> after[j] == before[j]
    requires after[pos] == x
    requires forall j :: pos < j < |after| ==> after[j] == before[j - 1]
    ensures after == before[..pos] + [x] + before[pos..]
  {
  }

  lemma BelowAll<V>(s: seq<Slot<V>>, mid: nat, k: string)
    requires Sorted(s) && mid < |s| && Less(k, s[mid].k)
    ensures forall j :: mid <= j < |s| ==> Less(k, s[j].k)
  {
    forall j | mid < j < |s| ensures Less(k, s[j].k) {
      LessTransitive(k, s[mid].k, s[j].k);
    }
  }

  lemma AboveAll<V>(s: seq<Slot<V>>, mid: nat, k: string)
    requires Sorted(s) && mid < |s| && Less(s[mid].k, k)
    ensures forall j :: 0 <= j <= mid ==> Less(s[j].k, k)
  {
    forall j | 0 <= j < mid ensures Less(s[j].k, k) {
      LessTransitive(s[j].k, s[mid].k, k);
    }
  }
}
