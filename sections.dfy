/** The part of a parsed WebAssembly module this core touches: its ordered
    sections, of which custom sections (section 5.5.3 of the WebAssembly Core
    Specification) carry a name and an opaque payload.

    The custom-section operations belong to parity_wasm, which is not part of
    this model. `SetCustom` and `ClearCustom` state what the model ASSUMES of
    `Module::set_custom_section` and `Module::clear_custom_section`: setting
    overwrites the first custom section of that name or appends a new one at
    the end; clearing removes the first custom section of that name, if any. */
module Sections {
  import opened Types

  /** The id of a non-custom section. Id 0 is the custom section, so it never
      appears here. */
  type SectionId = x: byte | 1 <= x witness 1

  datatype Section =
    | Custom(name: string, payload: Bytes)
    | Other(id: SectionId, body: Bytes)

  predicate IsNamed(s: Section, name: string) {
    s.Custom? && s.name == name
  }

  predicate HasCustom(ss: seq<Section>, name: string) {
    exists i :: 0 <= i < |ss| && IsNamed(ss[i], name)
  }

  lemma HasCustomCons(ss: seq<Section>, name: string)
    requires ss != []
    ensures HasCustom(ss, name) <==> IsNamed(ss[0], name) || HasCustom(ss[1..], name)
  {
    if HasCustom(ss, name) && !IsNamed(ss[0], name) {
      var i :| 0 <= i < |ss| && IsNamed(ss[i], name);
      assert IsNamed(ss[1..][i - 1], name);
    }
    if HasCustom(ss[1..], name) {
      var i :| 0 <= i < |ss[1..]| && IsNamed(ss[1..][i], name);
      assert IsNamed(ss[i + 1], name);
    }
  }

  /** Where the first custom section called `name` sits. */
  function FirstNamed(ss: seq<Section>, name: string): (i: nat)
    requires HasCustom(ss, name)
    ensures i < |ss| && IsNamed(ss[i], name)
    ensures !HasCustom(ss[..i], name)
  {
    if IsNamed(ss[0], name) then 0
    else
      HasCustomCons(ss, name);
      var k := FirstNamed(ss[1..], name);
      assert ss[..k + 1][1..] == ss[1..][..k];
      HasCustomCons(ss[..k + 1], name);
      1 + k
  }

  /** The payloads of the custom sections called `name`, in module order:
      `module.custom_sections().filter(|s| s.name() == name)`. */
  function Payloads(ss: seq<Section>, name: string): (r: seq<Bytes>)
    ensures |r| == 0 <==> !HasCustom(ss, name)
  {
    if ss == [] then []
    else
      (if IsNamed(ss[0], name) then [ss[0].payload] else [])
      + Payloads(ss[1..], name)
  }

  /** The sections other than the custom sections called `name`. */
  function Rest(ss: seq<Section>, name: string): seq<Section> {
    if ss == [] then []
    else (if IsNamed(ss[0], name) then [] else [ss[0]]) + Rest(ss[1..], name)
  }

  /** `set_custom_section`: the first custom section called `name` is
      overwritten where it stands, or, when there is none, a new one is
      appended after every other section. */
  function SetCustom(ss: seq<Section>, name: string, payload: Bytes): (r: seq<Section>)
    ensures |r| == if HasCustom(ss, name) then |ss| else |ss| + 1
    ensures Payloads(r, name)
         == [payload] + (if HasCustom(ss, name) then Payloads(ss, name)[1..] else [])
    ensures Rest(r, name) == Rest(ss, name)
  {
    if ss == [] then [Custom(name, payload)]
    else if IsNamed(ss[0], name) then [Custom(name, payload)] + ss[1..]
    else
      var r := [ss[0]] + SetCustom(ss[1..], name, payload);
      assert r[1..] == SetCustom(ss[1..], name, payload);
      HasCustomCons(ss, name);
      r
  }

  /** `clear_custom_section`: the first custom section called `name`, if
      any, is removed; every other section keeps its order. */
  function ClearCustom(ss: seq<Section>, name: string): (r: seq<Section>)
    ensures |r| == if HasCustom(ss, name) then |ss| - 1 else |ss|
    ensures Payloads(r, name)
         == if HasCustom(ss, name) then Payloads(ss, name)[1..] else []
    ensures Rest(r, name) == Rest(ss, name)
  {
    if ss == [] then []
    else if IsNamed(ss[0], name) then ss[1..]
    else
      var r := [ss[0]] + ClearCustom(ss[1..], name);
      assert r[1..] == ClearCustom(ss[1..], name);
      HasCustomCons(ss, name);
      r
  }

  /** Where `SetCustom` puts the section: in place of the first one called
      `name`, or after every other section when there is none. */
  lemma {:induction false} SetCustomPlacement(ss: seq<Section>, name: string, payload: Bytes)
    ensures HasCustom(ss, name)
            ==> SetCustom(ss, name, payload) == ss[FirstNamed(ss, name) := Custom(name, payload)]
    ensures !HasCustom(ss, name) ==> SetCustom(ss, name, payload) == ss + [Custom(name, payload)]
  {
    if ss != [] && !IsNamed(ss[0], name) {
      SetCustomPlacement(ss[1..], name, payload);
      HasCustomCons(ss, name);
      var r := SetCustom(ss, name, payload);
      assert r == [ss[0]] + SetCustom(ss[1..], name, payload);
      if HasCustom(ss, name) {
        var k := FirstNamed(ss[1..], name);
        assert FirstNamed(ss, name) == k + 1;
        assert r == ss[k + 1 := Custom(name, payload)];
      } else {
        assert r == ss + [Custom(name, payload)];
      }
    }
  }

  /** Removing index `k + 1` from `[x] + tail` keeps `x` in front of
      `tail` with index `k` removed. */
  lemma RemoveAfterHead(x: Section, tail: seq<Section>, k: nat)
    requires k < |tail|
    ensures ([x] + tail)[..k + 1] + ([x] + tail)[k + 2..] == [x] + (tail[..k] + tail[k + 1..])
  {
    assert ([x] + tail)[..k + 1] == [x] + tail[..k];
    assert ([x] + tail)[k + 2..] == tail[k + 1..];
  }

  /** One step of `ClearCustomPlacement`: a head that is not called `name`
      stays in front of the cleared tail. */
  lemma ClearCustomStep(ss: seq<Section>, name: string, k: nat)
    requires ss != [] && !IsNamed(ss[0], name)
    requires k < |ss[1..]|
    requires ClearCustom(ss[1..], name) == ss[1..][..k] + ss[1..][k + 1..]
    ensures ClearCustom(ss, name) == ss[..k + 1] + ss[k + 2..]
  {
    var tail := ss[1..];
    assert ClearCustom(ss, name) == [ss[0]] + ClearCustom(tail, name);
    RemoveAfterHead(ss[0], tail, k);
    assert [ss[0]] + tail == ss;
  }

  /** Which section `ClearCustom` removes: the first one called `name`; the
      sections before and after it keep their order. */
  lemma {:induction false} ClearCustomPlacement(ss: seq<Section>, name: string)
    requires HasCustom(ss, name)
    ensures ClearCustom(ss, name) == ss[..FirstNamed(ss, name)] + ss[FirstNamed(ss, name) + 1..]
  {
    if IsNamed(ss[0], name) {
      assert ss[..0] + ss[1..] == ss[1..];
    } else {
      assert HasCustom(ss[1..], name) by { HasCustomCons(ss, name); }
      ClearCustomPlacement(ss[1..], name);
      ClearCustomStep(ss, name, FirstNamed(ss[1..], name));
    }
  }

  /** Clearing a section that is not there changes nothing. */
  lemma {:induction false} ClearAbsent(ss: seq<Section>, name: string)
    requires !HasCustom(ss, name)
    ensures ClearCustom(ss, name) == ss
  {
    if ss != [] {
      assert !IsNamed(ss[0], name);
      assert forall i :: 0 <= i < |ss[1..]| ==> ss[1..][i] == ss[i + 1];
      ClearAbsent(ss[1..], name);
      assert [ss[0]] + ss[1..] == ss;
    }
  }

  /** Clearing undoes setting: whatever payload was set, and whether the
      section existed before or was appended, the cleared module is the
      original one cleared. */
  lemma {:induction false} ClearAfterSet(ss: seq<Section>, name: string, payload: Bytes)
    ensures ClearCustom(SetCustom(ss, name, payload), name) == ClearCustom(ss, name)
  {
    if ss == [] {
    } else if IsNamed(ss[0], name) {
    } else {
      ClearAfterSet(ss[1..], name, payload);
      var withSet := SetCustom(ss, name, payload);
      assert withSet == [ss[0]] + SetCustom(ss[1..], name, payload);
      assert withSet[1..] == SetCustom(ss[1..], name, payload);
    }
  }

  /** A mutable parsed module, as `parity_wasm::elements::Module`. */
  class Module {
    var sections: seq<Section>

    constructor (sections: seq<Section>)
      ensures this.sections == sections
    {
      this.sections := sections;
    }

    method Clone() returns (copy: Module)
      ensures fresh(copy) && copy.sections == sections
    {
      copy := new Module(sections);
    }

    method SetCustomSection(name: string, payload: Bytes)
      modifies this
      ensures sections == SetCustom(old(sections), name, payload)
    {
      sections := SetCustom(sections, name, payload);
    }

    method ClearCustomSection(name: string)
      modifies this
      ensures sections == ClearCustom(old(sections), name)
    {
      sections := ClearCustom(sections, name);
    }
  }
}
