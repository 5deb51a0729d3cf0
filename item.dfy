/** Model of item.c: a mutable key/value pair. */
module Items {

  class Item<K, V> {
    var key: K
    var value: V

    /** item_create */
    constructor (k: K, v: V)
      ensures GetKey() == k && GetValue() == v
    {
      key := k;
      value := v;
    }

    /** item_get_key: a read that changes nothing. */
    function GetKey(): K
      reads this
    {
      key
    }

    /** item_get_value: a read that changes nothing. */
    function GetValue(): V
      reads this
    {
      value
    }

    /** item_set_key: overwrite the key in place; the value stays. */
    method SetKey(k: K)
      modifies this
      ensures GetKey() == k && GetValue() == old(GetValue())
    {
      key := k;
    }

    /** item_set_value: overwrite the value in place; the key stays. */
    method SetValue(v: V)
      modifies this
      ensures GetValue() == v && GetKey() == old(GetKey())
    {
      value := v;
    }
  }
}
