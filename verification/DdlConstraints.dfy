/** Editing the constraints of a table definition in place. */
module DdlConstraints {
  const KEYWORD := "CONSTRAINT "

  /** `^CONSTRAINT ["`]?<name>["` ]` with the name taken literally. */
  predicate Names(field: string, name: string) {
    || Follows(field, KEYWORD + name)
    || Follows(field, KEYWORD + "\"" + name)
    || Follows(field, KEYWORD + "`" + name)
  }

  /** `field` starts with `prefix` and then a closing quote or a space. */
  predicate Follows(field: string, prefix: string) {
    prefix <= field && |prefix| < |field| && Ends(field[|prefix|])
  }

  predicate Ends(c: char) { c == '"' || c == '`' || c == ' ' }

  predicate Has(fields: seq<string>, name: string) {
    exists i :: 0 <= i < |fields| && Names(fields[i], name)
  }

  /** The first field with that name, or the length. */
  function First(fields: seq<string>, name: string): (i: nat)
    ensures i <= |fields|
    ensures i < |fields| ==> Names(fields[i], name)
    ensures forall j :: 0 <= j < i ==> !Names(fields[j], name)
  {
    if fields == [] || Names(fields[0], name) then 0 else 1 + First(fields[1..], name)
  }

  function Added(fields: seq<string>, name: string, sql: string): seq<string> {
    var i := First(fields, name);
    if i < |fields| then fields[i := sql] else fields + [sql]
  }

  function Removed(fields: seq<string>, name: string): seq<string> {
    var i := First(fields, name);
    if i < |fields| then fields[..i] + fields[i + 1..] else fields
  }

  class Ddl {
    var head: string
    var fields: seq<string>

    constructor (head: string, fields: seq<string>)
      ensures this.head == head && this.fields == fields
    {
      this.head, this.fields := head, fields;
    }

    method AddConstraint(name: string, sql: string)
      modifies this`fields
      ensures fields == Added(old(fields), name, sql)
    {
      var i := 0;
      while i < |fields|
        invariant 0 <= i <= |fields| && fields == old(fields)
        invariant forall j :: 0 <= j < i ==> !Names(fields[j], name)
      {
        if Names(fields[i], name) {
          fields := fields[i := sql];
          return;
        }
        i := i + 1;
      }
      fields := fields + [sql];
    }

    method RemoveConstraint(name: string) returns (removed: bool)
      modifies this`fields
      ensures fields == Removed(old(fields), name)
      ensures removed == Has(old(fields), name)
    {
      var i := 0;
      while i < |fields|
        invariant 0 <= i <= |fields| && fields == old(fields)
        invariant forall j :: 0 <= j < i ==> !Names(fields[j], name)
      {
        if Names(fields[i], name) {
          fields := fields[..i] + fields[i + 1..];
          return true;
        }
        i := i + 1;
      }
      return false;
    }

    method HasConstraint(name: string) returns (has: bool)
      ensures has == Has(fields, name)
    {
      var i := 0;
      while i < |fields|
        invariant 0 <= i <= |fields|
        invariant forall j :: 0 <= j < i ==> !Names(fields[j], name)
      {
        if Names(fields[i], name) { return true; }
        i := i + 1;
      }
      return false;
    }
  }

  /** Adding a constraint and removing it restores the list exactly when the name was free and `sql` declares it. */
  lemma AddThenRemove(fields: seq<string>, name: string, sql: string)
    ensures Removed(Added(fields, name, sql), name) == fields <==> !Has(fields, name) && Names(sql, name)
  {
    var added := Added(fields, name, sql);
    var i, j := First(fields, name), First(added, name);
    if !Has(fields, name) {
      assert added == fields + [sql];
      if Names(sql, name) {
        assert added[|fields|] == sql && j == |fields|;
      } else {
        assert !Has(added, name);
      }
    } else {
      assert added == fields[i := sql];
      if j < |added| {
        assert |Removed(added, name)| == |fields| - 1;
      } else {
        assert !Names(added[i], name) && Names(fields[i], name);
      }
    }
  }

  /** At most one field carries the name. */
  ghost predicate Unique(fields: seq<string>, name: string) {
    forall i, j :: 0 <= i < j < |fields| && Names(fields[i], name) ==> !Names(fields[j], name)
  }

  lemma AddKeepsUnique(fields: seq<string>, name: string, sql: string)
    requires Unique(fields, name)
    ensures Unique(Added(fields, name, sql), name)
    ensures Has(Added(fields, name, sql), name) <==> Names(sql, name)
  {
    var added, i := Added(fields, name, sql), First(fields, name);
    if Names(sql, name) { assert Names(added[i], name); }
  }

  /** Removing takes the name away exactly when it was unique. */
  lemma RemoveClears(fields: seq<string>, name: string)
    ensures !Has(Removed(fields, name), name) <==> Unique(fields, name)
  {
    var i, removed := First(fields, name), Removed(fields, name);
    if !Unique(fields, name) {
      var a, b :| 0 <= a < b < |fields| && Names(fields[a], name) && Names(fields[b], name);
      assert i <= a && removed[b - 1] == fields[b];
    } else {
      forall k | 0 <= k < |removed| ensures !Names(removed[k], name) {
        assert removed[k] == fields[if k < i then k else k + 1];
      }
    }
  }

  /** A name that cannot be confused with a longer one: free of the characters that end it. */
  predicate PlainName(name: string) {
    name != "" && forall i :: 0 <= i < |name| ==> !Ends(name[i])
  }

  function UntilEnd(s: string): string {
    if s == "" || Ends(s[0]) then "" else [s[0]] + UntilEnd(s[1..])
  }

  lemma {:induction false} ReadName(s: string, name: string)
    requires Follows(s, name) && forall i :: 0 <= i < |name| ==> !Ends(name[i])
    ensures UntilEnd(s) == name
  {
    if name != "" {
      assert s[0] == name[0] && s[1..][|name| - 1] == s[|name|];
      ReadName(s[1..], name[1..]);
    }
  }

  /** The name a constraint field declares, whichever quote it uses. */
  function NameOf(field: string): string {
    if |field| <= |KEYWORD| then ""
    else if field[|KEYWORD|] == '"' || field[|KEYWORD|] == '`' then UntilEnd(field[|KEYWORD| + 1..])
    else UntilEnd(field[|KEYWORD|..])
  }

  lemma NamesReads(field: string, p: string, name: string)
    requires PlainName(name) && Follows(field, KEYWORD + p + name) && (p == "" || p == "\"" || p == "`")
    ensures NameOf(field) == name
  {
    var k, x := |KEYWORD|, KEYWORD + p + name;
    assert field[k] == x[k] == if p == "" then name[0] else p[0];
    assert x[k + |p|..] == name;
    assert field[k + |p|..][..|name|] == field[..|x|][k + |p|..] == name;
    ReadName(field[k + |p|..], name);
  }

  /** A field declares at most one plain name. */
  lemma OneName(field: string, a: string, b: string)
    requires PlainName(a) && PlainName(b) && Names(field, a) && Names(field, b)
    ensures a == b
  {
    assert KEYWORD + "" == KEYWORD;
    NamesReads(field, if Follows(field, KEYWORD + a) then "" else if Follows(field, KEYWORD + "\"" + a) then "\"" else "`", a);
    NamesReads(field, if Follows(field, KEYWORD + b) then "" else if Follows(field, KEYWORD + "\"" + b) then "\"" else "`", b);
  }

  lemma FirstIsOther(fields: seq<string>, name: string, other: string)
    requires PlainName(name) && PlainName(other) && other != name && First(fields, name) < |fields|
    ensures !Names(fields[First(fields, name)], other)
  {
    if Names(fields[First(fields, name)], other) { OneName(fields[First(fields, name)], name, other); }
  }

  lemma AddKeepsOthers(fields: seq<string>, name: string, sql: string, other: string)
    requires PlainName(name) && PlainName(other) && other != name && !Names(sql, other)
    ensures Has(Added(fields, name, sql), other) == Has(fields, other)
  {
    var i, added := First(fields, name), Added(fields, name, sql);
    if i < |fields| { FirstIsOther(fields, name, other); }
    if k :| 0 <= k < |fields| && Names(fields[k], other) { assert added[k] == fields[k]; }
    if k :| 0 <= k < |added| && Names(added[k], other) { assert added[k] == fields[k]; }
  }

  lemma RemoveKeepsOthers(fields: seq<string>, name: string, other: string)
    requires PlainName(name) && PlainName(other) && other != name
    ensures Has(Removed(fields, name), other) == Has(fields, other)
  {
    var i, removed := First(fields, name), Removed(fields, name);
    if i < |fields| {
      FirstIsOther(fields, name, other);
      if k :| 0 <= k < |fields| && Names(fields[k], other) { assert removed[if k < i then k else k - 1] == fields[k]; }
      if k :| 0 <= k < |removed| && Names(removed[k], other) { assert removed[k] == fields[if k < i then k else k + 1]; }
    }
  }

  /** So editing one plain name leaves every other plain name as it was. */
  lemma EditsStayApart(fields: seq<string>, name: string, sql: string, other: string)
    requires PlainName(name) && PlainName(other) && other != name && Names(sql, name)
    ensures Has(Added(fields, name, sql), other) == Has(fields, other)
    ensures Has(Removed(fields, name), other) == Has(fields, other)
  {
    if Names(sql, other) { OneName(sql, name, other); }
    AddKeepsOthers(fields, name, sql, other);
    RemoveKeepsOthers(fields, name, other);
  }
}
