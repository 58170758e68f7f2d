/**
  Client code of the registry, stated over the contracts of `GetOrInit`
  alone, as the usage the registry is designed for.
*/
module Scenarios {
  import opened Wrappers
  import opened Globals

  /**
    `get_or_init::<i32Box>(|| 42)` followed by `get_or_init::<i32Box>(|| 99)`:
    the second factory never runs, both handles dereference to 42 and share
    one stored value.
  */
  method SecondFactoryNeverRuns() returns (first: Option<int>, second: Option<int>, shared: bool)
    ensures first == Some(42) && second == Some(42) && shared
  {
    var key := TypeOf("i32Box");
    var registry := new GenericGlobal<int>();
    var e1 := registry.GetOrInit(key, () => 42);
    var e2 := registry.GetOrInit(key, () => 99);
    assert registry.runs[key] == 1;
    first, second := e1.Deref(), e2.Deref();
    shared := e1.stored == e2.stored;
  }

  /**
    Two distinct types stored side by side: each handle dereferences to its
    own type's value, a later request for the first type returns the first
    value, and downcasting one type's stored value to the other type fails.
  */
  method TwoTypesStayApart() returns (bytes: Option<int>, words: Option<int>, crossed: Option<int>)
    ensures bytes == Some(8) && words == Some(32) && crossed == None
  {
    var u8Pool, u32Pool := TypeOf("Mutex<Vec<Box<[u8]>>>"), TypeOf("Mutex<Vec<Box<[u32]>>>");
    var registry := new GenericGlobal<int>();
    var first := registry.GetOrInit(u8Pool, () => 8);
    var other := registry.GetOrInit(u32Pool, () => 32);
    var again := registry.GetOrInit(u8Pool, () => 0);
    bytes, words := again.Deref(), other.Deref();
    crossed := Entry(first.stored, u32Pool).Deref();
  }
}
