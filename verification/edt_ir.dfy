/**
 The section IR of the engug crate (`ir.rs`): typed values and sections built by `add_entry`.

 A Rust `String` is its UTF-8 bytes, since `len()` counts bytes.  A floating-point value is its
 bit pattern: NaN is excluded by the source, and widening f32 to f64 and back is exact otherwise.
 */
module EdtIr {
  import opened Prelude

  type Str = seq<Byte>

  datatype IntegerValue = IByte(b: Byte) | IWord(w: U16) | IDouble(d: U32) | IQuad(q: U64)
  {
    function Width(): Byte {
      match this case IByte(_) => 1 case IWord(_) => 2 case IDouble(_) => 4 case IQuad(_) => 8
    }

    function Number(): nat {
      match this case IByte(x) => x case IWord(x) => x case IDouble(x) => x case IQuad(x) => x
    }
  }

  datatype FloatingValue = FSingle(single: U32) | FDouble(double: U64)
  {
    function Width(): Byte {
      match this case FSingle(_) => 4 case FDouble(_) => 8
    }

    function Bits(): nat {
      match this case FSingle(x) => x case FDouble(x) => x
    }
  }

  datatype IRValue = Integer(i: IntegerValue) | Floating(f: FloatingValue) | Text(s: Str)

  type Entries = map<Str, seq<IRValue>>

  datatype SectionValue = SectionValue(name: Str, entries: Entries)

  /** What `add_entry` can build: no key without values. */
  ghost predicate Reachable(entries: Entries) {
    forall k :: k in entries ==> entries[k] != []
  }

  class Section {
    const name: Str
    var entries: Entries

    constructor (name: Str)
      ensures this.name == name && entries == map[]
    {
      this.name, entries := name, map[];
    }

    ghost function Value(): SectionValue
      reads this
    {
      SectionValue(name, entries)
    }

    /** `Section::add_entry`. */
    method AddEntry(key: Str, value: IRValue)
      modifies this
      ensures entries == Pushed(old(entries), key, value)
      ensures old(Reachable(entries)) ==> Reachable(entries)
    {
      if key !in entries {
        entries := entries[key := [value]];
        assert [] + [value] == [value];
      } else {
        entries := entries[key := entries[key] + [value]];
      }
    }
  }
}
