/** The ordered, case-insensitive multimap of header fields (`http_headers`). */
module Headers {
  import opened Wrappers
  import opened Text

  datatype Field = Field(name: string, value: string)

  /** Exclusive bound of the size type into which lengths are parsed. */
  const SIZE_LIMIT: nat := 0x1_0000_0000_0000_0000

  predicate IsNamed(f: Field, name: string) { EqualsIgnoreCase(f.name, name) }

  // ----- meaning of the operations -----

  /** The fields called `name`, in order. */
  function Named(fields: seq<Field>, name: string): seq<Field> {
    if fields == [] then []
    else if IsNamed(fields[0], name) then [fields[0]] + Named(fields[1..], name)
    else Named(fields[1..], name)
  }

  /** The fields not called `name`, in order. */
  function Without(fields: seq<Field>, name: string): seq<Field> {
    if fields == [] then []
    else if IsNamed(fields[0], name) then Without(fields[1..], name)
    else [fields[0]] + Without(fields[1..], name)
  }

  /** The first field called `name`. */
  function Lookup(fields: seq<Field>, name: string): Option<string> {
    var found := Named(fields, name);
    if found == [] then None else Some(found[0].value)
  }

  predicate Contains(fields: seq<Field>, name: string) { Named(fields, name) != [] }

  /** Replaces the value of the first field called `name`, keeping its spelling, or appends one. */
  function SetField(fields: seq<Field>, name: string, value: string): seq<Field> {
    if fields == [] then [Field(name, value)]
    else if IsNamed(fields[0], name) then [fields[0].(value := value)] + fields[1..]
    else [fields[0]] + SetField(fields[1..], name, value)
  }

  function ContentLength(fields: seq<Field>): Option<nat> {
    match Lookup(fields, "Content-Length")
    case None => None
    case Some(v) => FromChars(v, 10, SIZE_LIMIT)
  }

  predicate IsSeparator(c: char) { c == ' ' || c == '\t' || c == ',' }

  /** `v[i..j]` is a maximal run of non-separators. */
  predicate TokenAt(v: string, i: int, j: int) {
    && 0 <= i < j <= |v|
    && (forall k :: i <= k < j ==> !IsSeparator(v[k]))
    && (i == 0 || IsSeparator(v[i - 1]))
    && (j == |v| || IsSeparator(v[j]))
  }

  /** Some whole token of the list value `v` spells `token`. */
  ghost predicate HasToken(v: string, token: string) {
    exists i, j :: TokenAt(v, i, j) && EqualsIgnoreCase(v[i..j], token)
  }

  ghost predicate IsChunked(fields: seq<Field>) {
    var v := Lookup(fields, "Transfer-Encoding");
    v.Some? && HasToken(v.value, "chunked")
  }

  ghost predicate KeepsAlive(fields: seq<Field>) {
    var v := Lookup(fields, "Connection");
    v.Some? ==> !HasToken(v.value, "close")
  }

  // ----- laws -----

  lemma {:induction false} NamedConcat(a: seq<Field>, b: seq<Field>, name: string)
    ensures Named(a + b, name) == Named(a, name) + Named(b, name)
  {
    if a == [] {
      assert a + b == b;
    } else {
      NamedConcat(a[1..], b, name);
      assert (a + b)[1..] == a[1..] + b;
    }
  }

  lemma SameFoldedName(f: Field, name: string, other: string)
    requires IsNamed(f, name)
    ensures IsNamed(f, other) == EqualsIgnoreCase(name, other)
  {
    if |name| == |other| && IsNamed(f, other) {
      assert forall i :: 0 <= i < |name| ==> Lower(f.name[i]) == Lower(other[i]);
    }
  }

  /** Setting a field touches no field of another name. */
  lemma {:induction false} SetKeepsOthers(fields: seq<Field>, name: string, value: string, other: string)
    requires !EqualsIgnoreCase(name, other)
    ensures Named(SetField(fields, name, value), other) == Named(fields, other)
  {
    if fields == [] {
      assert SetField(fields, name, value)[1..] == [];
    } else if IsNamed(fields[0], name) {
      SameFoldedName(fields[0], name, other);
      assert SetField(fields, name, value)[1..] == fields[1..];
    } else {
      SetKeepsOthers(fields[1..], name, value, other);
      assert SetField(fields, name, value)[1..] == SetField(fields[1..], name, value);
    }
  }

  /** Setting a field changes the first one of that name, or appends the only one. */
  lemma {:induction false} SetReplacesFirst(fields: seq<Field>, name: string, value: string)
    ensures var had := Named(fields, name);
      Named(SetField(fields, name, value), name)
      == if had == [] then [Field(name, value)] else [had[0].(value := value)] + had[1..]
  {
    if fields == [] {
      assert SetField(fields, name, value)[1..] == [];
    } else if IsNamed(fields[0], name) {
      assert SetField(fields, name, value)[1..] == fields[1..];
    } else {
      SetReplacesFirst(fields[1..], name, value);
      assert SetField(fields, name, value)[1..] == SetField(fields[1..], name, value);
    }
  }

  /** Removing a name removes every field of that name, and no other field. */
  lemma {:induction false} WithoutEffect(fields: seq<Field>, name: string, other: string)
    ensures Named(Without(fields, name), other)
      == if EqualsIgnoreCase(name, other) then [] else Named(fields, other)
  {
    if fields != [] {
      WithoutEffect(fields[1..], name, other);
      if IsNamed(fields[0], name) {
        SameFoldedName(fields[0], name, other);
      } else {
        assert Without(fields, name)[1..] == Without(fields[1..], name);
        if EqualsIgnoreCase(name, other) && IsNamed(fields[0], other) {
          SameFoldedName(fields[0], other, name);
        }
      }
    }
  }
}
