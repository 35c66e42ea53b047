/**
  The company registry ("Cadastro de Empresas"): a table of rows with the
  columns "Codigo SAP", "Nome Empresa" and "Descrição", kept in one stored
  file. Rows are added at the end, edited by code and deleted by code.
 */
module Companies {
  import opened Wrappers
  import opened Text

  /** One row: the SAP code (the key), the company name and the description. */
  datatype Company = Company(code: string, name: string, description: string)

  type Table = seq<Company>

  /** The "Codigo SAP" column. */
  function Codes(t: Table): seq<string> {
    seq(|t|, i requires 0 <= i < |t| => t[i].code)
  }

  ghost predicate UniqueCodes(t: Table) {
    forall i, j :: 0 <= i < j < |t| ==> t[i].code != t[j].code
  }

  // ---------------------------------------------------------------- insert

  datatype InsertError =
    | MissingRequired   // code or name left empty
    | DuplicateCode     // the code is already in the "Codigo SAP" column

  /** The "Salvar Empresa" form as written: both checks look at the inputs as
      typed, the new row stores them stripped. */
  function Insert(t: Table, code: string, name: string, description: string): (r: Result<Table, InsertError>)
    ensures code == "" || name == "" ==> r == Err(MissingRequired)
    ensures code != "" && name != "" && code in Codes(t) ==> r == Err(DuplicateCode)
    ensures r.Ok? <==> code != "" && name != "" && code !in Codes(t)
    ensures r.Ok? ==> |r.value| == |t| + 1 && r.value[..|t|] == t
    ensures r.Ok? ==> r.value[|t|] == Company(Strip(code), Strip(name), Strip(description))
  {
    if code == "" || name == "" then Err(MissingRequired)
    else if code in Codes(t) then Err(DuplicateCode)
    else Ok(t + [Company(Strip(code), Strip(name), Strip(description))])
  }

  /** Insert keeps codes unique only for a code typed without surrounding
      whitespace: then the code checked is the code stored. */
  lemma InsertKeepsCodesUnique(t: Table, code: string, name: string, description: string)
    requires UniqueCodes(t) && IsStripped(code)
    requires Insert(t, code, name, description).Ok?
    ensures UniqueCodes(Insert(t, code, name, description).value)
  {
    var u := t + [Company(code, Strip(name), Strip(description))];
    assert Insert(t, code, name, description).value == u;
    forall i, j | 0 <= i < j < |u| ensures u[i].code != u[j].code {
      if j == |t| {
        assert Codes(t)[i] == t[i].code;
      } else {
        assert u[i] == t[i] && u[j] == t[j];
      }
    }
  }

  /** As written, a code typed with surrounding whitespace (" 001", which
      strips to "001" by `StripSurrounded`) slips past the duplicate check
      and the row it strips to is stored a second time. */
  lemma InsertAcceptsPaddedDuplicate(c: Company, typed: string)
    requires c.code != "" && c.name != ""
    requires IsStripped(c.name) && IsStripped(c.description)
    requires typed != c.code && Strip(typed) == c.code
    ensures Insert([c], typed, c.name, c.description) == Ok([c, c])
  {
    var row := Company(Strip(typed), Strip(c.name), Strip(c.description));
    assert Insert([c], typed, c.name, c.description) == Ok([c] + [row]) by {
      assert typed !in Codes([c]) by { assert Codes([c]) == [c.code]; }
    }
    assert [c] + [row] == [c, c] by {
      assert row == c;
    }
  }

  /** As written, a code of blanks passes the required-field check and is
      stored as an empty code. */
  lemma InsertAcceptsBlankCode(blank: string, name: string, description: string)
    requires blank != "" && AllSpace(blank) && name != ""
    ensures Insert([], blank, name, description) == Ok([Company("", Strip(name), Strip(description))])
  {
    StripSurrounded(blank, "", "");
    assert blank + "" + "" == blank;
  }

  /** The insert with both checks made on the stripped inputs: a blank code or
      name is missing, and a code counts as duplicate when its stripped form
      is already in the column. */
  function InsertTrimmed(t: Table, code: string, name: string, description: string): (r: Result<Table, InsertError>)
    ensures Strip(code) == "" || Strip(name) == "" ==> r == Err(MissingRequired)
    ensures r.Ok? <==> Strip(code) != "" && Strip(name) != "" && Strip(code) !in Codes(t)
    ensures r.Ok? ==> r.value == t + [Company(Strip(code), Strip(name), Strip(description))]
    ensures r.Ok? ==> r.value[|t|].code != "" && r.value[|t|].name != ""
    ensures r.Ok? && UniqueCodes(t) ==> UniqueCodes(r.value)
  {
    var code, name := Strip(code), Strip(name);
    if code == "" || name == "" then Err(MissingRequired)
    else if code in Codes(t) then Err(DuplicateCode)
    else
      var u := t + [Company(code, name, Strip(description))];
      assert forall i | 0 <= i < |t| :: Codes(t)[i] == u[i].code;
      Ok(u)
  }

  // ---------------------------------------------------------------- update

  /** The two columns the edit form writes. */
  datatype Column = NameColumn | DescriptionColumn

  function SetField(c: Company, col: Column, v: string): Company {
    match col
    case NameColumn => c.(name := v)
    case DescriptionColumn => c.(description := v)
  }

  /** The table after `.loc[codes == code, col] = v`. */
  function SetColumn(t: Table, code: string, col: Column, v: string): (r: Table) {
    seq(|t|, i requires 0 <= i < |t| => if t[i].code == code then SetField(t[i], col, v) else t[i])
  }

  /** The table after the edit of `code`: every row with that code takes the
      new name and description; every other row, and the code column, stay. */
  function Updated(t: Table, code: string, name: string, description: string): (r: Table) {
    seq(|t|, i requires 0 <= i < |t| =>
      if t[i].code == code then t[i].(name := name, description := description) else t[i])
  }

  lemma UpdatedKeepsCodes(t: Table, code: string, name: string, description: string)
    ensures |Updated(t, code, name, description)| == |t|
    ensures Codes(Updated(t, code, name, description)) == Codes(t)
    ensures UniqueCodes(t) ==> UniqueCodes(Updated(t, code, name, description))
    ensures code !in Codes(t) ==> Updated(t, code, name, description) == t
  {
    var u := Updated(t, code, name, description);
    assert forall i | 0 <= i < |t| :: u[i].code == t[i].code;
    if code !in Codes(t) {
      forall i | 0 <= i < |t| ensures u[i] == t[i] {
        assert Codes(t)[i] == t[i].code;
      }
    }
  }

  /** One `.loc[mask, col] = v` on the loaded table, in place. */
  method AssignColumn(a: array<Company>, code: string, col: Column, v: string)
    modifies a
    ensures a[..] == SetColumn(old(a[..]), code, col, v)
  {
    var i := 0;
    while i < a.Length
      invariant 0 <= i <= a.Length
      invariant forall k :: 0 <= k < i ==> a[k] == SetColumn(old(a[..]), code, col, v)[k]
      invariant forall k :: i <= k < a.Length ==> a[k] == old(a[k])
    {
      if a[i].code == code {
        a[i] := SetField(a[i], col, v);
      }
      i := i + 1;
    }
  }

  /** "Atualizar Empresa": the name column, then the description column, of
      the rows with the selected code take the stripped inputs. */
  method UpdateCompany(a: array<Company>, code: string, newName: string, newDescription: string)
    modifies a
    ensures a[..] == Updated(old(a[..]), code, Strip(newName), Strip(newDescription))
  {
    ghost var before := a[..];
    AssignColumn(a, code, NameColumn, Strip(newName));
    AssignColumn(a, code, DescriptionColumn, Strip(newDescription));
    assert a[..] == SetColumn(SetColumn(before, code, NameColumn, Strip(newName)), code, DescriptionColumn, Strip(newDescription));
  }

  // ---------------------------------------------------------------- delete

  /** How many rows carry `code`. */
  function CountCode(t: Table, code: string): nat {
    if t == [] then 0
    else (if t[0].code == code then 1 else 0) + CountCode(t[1..], code)
  }

  /** "Excluir Empresa": the rows whose code differs from the selected one,
      in their original order. */
  function Delete(t: Table, code: string): (r: Table)
    ensures |r| == |t| - CountCode(t, code)
    ensures forall i :: 0 <= i < |r| ==> r[i].code != code
    ensures forall c :: c in r <==> c in t && c.code != code
  {
    if t == [] then []
    else
      var rest := Delete(t[1..], code);
      assert forall c :: c in t <==> c == t[0] || c in t[1..] by {
        assert t == [t[0]] + t[1..];
      }
      if t[0].code == code then rest else [t[0]] + rest
  }

  /** Deleting commutes with concatenation: the kept rows keep their order. */
  lemma {:induction false} DeleteConcat(a: Table, b: Table, code: string)
    ensures Delete(a + b, code) == Delete(a, code) + Delete(b, code)
  {
    if a != [] {
      assert (a + b)[1..] == a[1..] + b;
      DeleteConcat(a[1..], b, code);
    } else {
      assert a + b == b;
    }
  }

  /** Deleting a code that is not in the table changes nothing. */
  lemma {:induction false} DeleteAbsent(t: Table, code: string)
    requires code !in Codes(t)
    ensures Delete(t, code) == t
  {
    if t != [] {
      assert Codes(t)[0] == t[0].code;
      assert Codes(t[1..]) == Codes(t)[1..];
      DeleteAbsent(t[1..], code);
    }
  }

  lemma CodesCons(t: Table)
    requires t != []
    ensures Codes(t) == [t[0].code] + Codes(t[1..])
  {
  }

  /** The rest of a table with unique codes has unique codes, none of them
      the first row's. */
  lemma UniqueTail(t: Table)
    requires UniqueCodes(t) && t != []
    ensures UniqueCodes(t[1..])
    ensures forall c :: c in t[1..] ==> c.code != t[0].code
  {
    var rest := t[1..];
    forall i, j | 0 <= i < j < |rest| ensures rest[i].code != rest[j].code {
      assert rest[i] == t[i + 1] && rest[j] == t[j + 1];
    }
    forall c | c in rest ensures c.code != t[0].code {
      var k :| 0 <= k < |rest| && rest[k] == c;
      assert t[k + 1] == c;
    }
  }

  /** Deleting keeps the codes unique. */
  lemma {:induction false} DeleteKeepsCodesUnique(t: Table, code: string)
    requires UniqueCodes(t)
    ensures UniqueCodes(Delete(t, code))
  {
    if t != [] {
      var rest := t[1..];
      UniqueTail(t);
      DeleteKeepsCodesUnique(rest, code);
      if t[0].code != code {
        var dr := Delete(rest, code);
        forall j | 0 <= j < |dr| ensures dr[j].code != t[0].code {
          assert dr[j] in dr;
        }
        ConsUnique(t[0], dr);
      }
    }
  }

  lemma ConsUnique(c: Company, t: Table)
    requires UniqueCodes(t)
    requires forall j :: 0 <= j < |t| ==> t[j].code != c.code
    ensures UniqueCodes([c] + t)
  {
    var d := [c] + t;
    forall i, j | 0 <= i < j < |d| ensures d[i].code != d[j].code {
      assert d[j] == t[j - 1];
      if i > 0 {
        assert d[i] == t[i - 1];
      }
    }
  }

  /** With unique codes, a delete removes one row when the code is present
      and none otherwise. */
  lemma {:induction false} CountCodeUnique(t: Table, code: string)
    requires UniqueCodes(t)
    ensures CountCode(t, code) == if code in Codes(t) then 1 else 0
  {
    if t != [] {
      var rest := t[1..];
      UniqueTail(t);
      CountCodeUnique(rest, code);
      CodesCons(t);
      if t[0].code == code {
        forall j | 0 <= j < |rest| ensures Codes(rest)[j] != code {
          assert rest[j] in rest;
        }
      }
    }
  }

  /** Deleting the only row leaves an empty table. */
  lemma DeleteOnlyRow(c: Company)
    ensures Delete([c], c.code) == []
  {
    assert [c][1..] == [];
  }

  // ---------------------------------------------------------------- storage

  /** The stored `empresas.csv`: `None` while the folder holds no such file. */
  class CompanyStore {
    var file: Option<Table>

    constructor (existing: Option<Table>)
      ensures file == existing
    {
      file := existing;
    }

    /** `carregar_empresas`: the stored table; when there is none, an empty
        table is stored first and returned. */
    method Load() returns (t: Table)
      modifies this
      ensures old(file).None? ==> t == [] && file == Some([])
      ensures old(file).Some? ==> t == old(file).value && file == old(file)
      ensures file == Some(t)
    {
      if file.None? {
        file := Some([]);
      }
      t := file.value;
    }

    /** `salvar_empresas`: the whole table is written over the stored one. */
    method Save(t: Table)
      modifies this
      ensures file == Some(t)
    {
      file := Some(t);
    }
  }
}
