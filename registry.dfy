/**
 * The `!추가` (add) and `!제거` (remove) commands with the chat layer taken
 * away. Each reads the list from the `.env` store, checks membership, edits
 * its local copy with `append` or `remove`, and writes the whole list back.
 * The reply says which way the command went and, on success, carries the
 * list the bot echoes back to the user.
 */
module Registry {
  import opened ItemCodec
  import opened PyList

  datatype AddReply = AlreadyMonitored | Added(items: seq<string>)

  datatype RemoveReply = NotListed | Removed(items: seq<string>)

  /** Taking one entry out of a list of well-formed names leaves well-formed names. */
  lemma RemovedNamesAreNames(items: seq<string>, name: string)
    requires name in items
    requires AllNames(items)
    ensures AllNames(RemoveFirst(items, name))
  {
    var rest := RemoveFirst(items, name);
    forall k | 0 <= k < |rest|
      ensures IsName(rest[k])
    {
      RemoveFirstAt(items, name, k);
    }
  }

  /**
   * Duplicates through a comma: with `a` stored, adding `b,a` passes the
   * membership test, since the list holds no entry `b,a`, and the appended
   * list is saved as `a,b,a`, which reads back with `a` twice.
   */
  lemma CommaNameDuplicatesOnReload(a: string, b: string)
    requires IsName(a) && IsName(b) && a != b
    ensures GetItems(map[ItemsKey := a]) == [a]
    ensures b + "," + a !in GetItems(map[ItemsKey := a])
    ensures GetItems(SaveItems(map[ItemsKey := a], [a] + [b + "," + a])) == [a, b, a]
    ensures !Distinct(GetItems(SaveItems(map[ItemsKey := a], [a] + [b + "," + a])))
  {
    var name := b + "," + a;
    ParseNoComma(a);
    assert GetItems(map[ItemsKey := a]) == [a];
    assert name != a by {
      assert name[|b|] == ',';
    }
    var joined := Join([a] + [name]);
    assert ([a] + [name])[0] == a && ([a] + [name])[1..] == [name];
    assert Join([name]) == name;
    assert joined == a + "," + (b + "," + a);
    assert joined == (a + "," + b) + "," + a;
    ParseAtComma(a + "," + b, a);
    CommaNameSplitsOnReload(a, b);
    assert Parse(a + "," + b) == [a, b];
    var saved := SaveItems(map[ItemsKey := a], [a] + [name]);
    assert GetItems(saved) == Parse(joined) == [a, b] + [a];
    assert GetItems(saved)[0] == GetItems(saved)[2];
  }

  /** The `.env` file: a store of string values by key. */
  class EnvFile {
    var values: map<string, string>

    constructor (initial: map<string, string>)
      ensures values == initial
    {
      values := initial;
    }

    /** What `get_items` reads from the store right now. */
    function Items(): (items: seq<string>)
      reads this
      ensures AllNames(items)
      ensures ItemsKey !in values ==> items == []
    {
      GetItems(values)
    }

    /**
     * `save_items`: writes the list back under `MABINOGI_ITEMS`. A list of
     * well-formed names reads back exactly as it was written.
     */
    method Save(items: seq<string>)
      modifies this
      ensures values == SaveItems(old(values), items)
      ensures AllNames(items) ==> Items() == items
    {
      values := SaveItems(values, items);
      if AllNames(items) {
        SaveThenGet(old(values), items);
      }
    }

    /**
     * `add_item`: a name already present is refused and nothing is written;
     * otherwise the name goes to the end of the list, the earlier names keep
     * their order, and the list is saved. A well-formed name reads back as
     * exactly that list, and a list without duplicates stays so.
     */
    method AddItem(name: string) returns (reply: AddReply)
      modifies this
      ensures reply.AlreadyMonitored? <==> name in old(Items())
      ensures reply.AlreadyMonitored? ==> values == old(values)
      ensures reply.Added? ==> reply.items == old(Items()) + [name]
      ensures reply.Added? ==> values == SaveItems(old(values), reply.items)
      ensures reply.Added? && IsName(name) ==> Items() == reply.items
      ensures reply.Added? && Distinct(old(Items())) ==> Distinct(reply.items)
      ensures reply.Added? && IsName(name) && Distinct(old(Items())) ==> Distinct(Items())
    {
      var items := GetItems(values);
      if name in items {
        return AlreadyMonitored;
      }
      if Distinct(items) {
        AppendFresh(items, name);
      }
      if IsName(name) {
        AllNamesAppend(items, name);
      }
      items := items + [name];
      Save(items);
      reply := Added(items);
    }

    /**
     * `remove_item`: an absent name is refused and nothing is written;
     * otherwise exactly its first occurrence is deleted, the other names keep
     * their relative order, and the list is saved and reads back unchanged.
     * In a list without duplicates the name is then gone altogether.
     */
    method RemoveItem(name: string) returns (reply: RemoveReply)
      modifies this
      ensures reply.NotListed? <==> name !in old(Items())
      ensures reply.NotListed? ==> values == old(values)
      ensures reply.Removed? ==> reply.items == RemoveFirst(old(Items()), name)
      ensures reply.Removed? ==> values == SaveItems(old(values), reply.items)
      ensures reply.Removed? ==> Items() == reply.items
      ensures reply.Removed? && Distinct(old(Items())) ==> name !in Items() && Distinct(Items())
    {
      var items := GetItems(values);
      if name !in items {
        return NotListed;
      }
      var remaining := RemoveFirst(items, name);
      RemovedNamesAreNames(items, name);
      if Distinct(items) {
        RemoveFromDistinct(items, name);
      }
      Save(remaining);
      reply := Removed(remaining);
    }
  }
}
