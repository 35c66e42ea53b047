# Timesheet Fiscal: login gate and company registry

A Dafny model of the logic in `time_sheet.py`, the Streamlit application "Timesheet Fiscal". It covers four things:

- **User table** (`users.dfy`). `carregar_usuarios` reads the configured users. Each user maps to a string `name|password`. The string is split on the first `|` only, and entries without a `|` are skipped with a warning.
- **Login gate** (`session.dfy`). The session holds two fields, `logged_in` and `username`. A successful credential check sets them, and logout clears them.
- **Company registry** (`companies.dfy`). The "Cadastro de Empresas" page keeps a table with the columns "Codigo SAP", "Nome Empresa" and "Descrição" (the fields `code`, `name` and `description` of `Company`). The page can:
  - insert a row at the end, after checking that the required fields are present and that the code is new;
  - edit the name and description of the rows with a selected code, in place;
  - delete every row with a selected code.
- **Stored file** (`companies.dfy`). `empresas.csv` is modelled as an optional table. Loading when no file exists stores an empty table first.

`text.dfy` defines the two Python string operations the code relies on: `str.strip()` (with Python's `str.isspace` set of whitespace) and `str.split(sep, 1)`. `wrappers.dfy` holds `Option` and `Result`.

Three things enter the model as parameters:

- the secrets (`st.secrets["users"]`), as a `map<string, string>`;
- the typed user name and password;
- the form inputs.

The Google Drive store is reduced to the `file` field of `CompanyStore`.

Code uniqueness after an insert holds only for a code typed without surrounding whitespace (`InsertKeepsCodesUnique`). The duplicate check compares the code as typed, but the row stores the stripped code. See "## Findings".

## Model

| member | source | states |
|---|---|---|
| Text.Strip | time_sheet.py:250-252 | The result has no whitespace at either end, is no longer than the input, and equals the input when the input has none. |
| Text.StripSurrounded | time_sheet.py:250-252 | Stripping removes exactly the surrounding whitespace: whitespace + stripped core + whitespace strips to the core. |
| Text.SplitOnce | time_sheet.py:43 | `split("|", 1)` gives one part (the whole string) iff there is no separator. Otherwise it gives two parts whose join with the separator is the input, and the first part has no separator. |
| Text.SplitOnceFirst | time_sheet.py:43 | The split is at the first separator: `head + "|" + tail` with no `|` in `head` splits into `[head, tail]`, whatever `tail` holds. |
| Users.ParseEntry | time_sheet.py:43-46 | An entry parses iff it contains `|`. The parsed name has no `|`, and name + `|` + password is the entry. |
| Users.ParseJoin | time_sheet.py:43-44 | Parsing inverts `Join` for every user whose name has no `|`. The password may contain `|`. |
| Users.ParseFirstSeparatorOnly | time_sheet.py:43-44 | `"a|b|c"` parses to name `"a"` and password `"b|c"`. |
| Users.ParseUsers | time_sheet.py:38-47 | The resulting keys are exactly the configured users whose entry contains `|`, and each record joins back to its entry. |
| Users.LoadUsers | time_sheet.py:38-47 | The loop over the configured users returns `ParseUsers(config)` and warns about exactly the other users. The two sets partition the configured users. |
| Session.LoginSession.constructor | time_sheet.py:51-53 | A new session is logged out with an empty user name. |
| Session.LoginSession.Login | time_sheet.py:55-63 | Login succeeds iff the user is known and the typed password equals the stored one. On success the session is logged in as that user. On failure nothing changes. Either way the session invariant holds. |
| Session.LoginSession.Logout | time_sheet.py:73-75 | Logout clears both fields, which restores the invariant for any user table. |
| Session.LoginSession.DisplayName | time_sheet.py:71 | In a valid logged-in session, the user name is a key of the user table, so the sidebar lookup cannot fail. |
| Companies.Insert | time_sheet.py:241-256 | An empty code or name is rejected, and so is a code already in the column; the table is not changed in either case. Otherwise the table grows by one row. The old rows are kept in order, and the new last row holds the stripped code, name and description. |
| Companies.InsertKeepsCodesUnique | time_sheet.py:246-254 | For a code typed without surrounding whitespace, a successful insert keeps the codes unique. |
| Companies.InsertAcceptsPaddedDuplicate | time_sheet.py:246-250 | As written, a code typed differently from a registered code but stripping to it (` 001` for `001`, by `StripSurrounded`) passes the duplicate check. The registered row is then stored a second time. |
| Companies.InsertAcceptsBlankCode | time_sheet.py:242-250 | As written, a non-empty code made only of whitespace passes the required-field check and is stored as the empty code. |
| Companies.InsertTrimmed | time_sheet.py:242-254 | Both checks use the stripped inputs. A success stores a non-empty code and name and always keeps the codes unique. |
| Companies.UpdatedKeepsCodes | time_sheet.py:284-285 | An edit keeps the length and the whole code column, so it keeps unique codes. Editing a code that is absent changes nothing. |
| Companies.AssignColumn | time_sheet.py:284 | `.loc[codes == code, col] = v` in place: rows with the code get `v` in that column, and every other cell stays. |
| Companies.UpdateCompany | time_sheet.py:283-286 | After the edit, each row with the selected code has the stripped new name and description. Every other row is unchanged. |
| Companies.Delete | time_sheet.py:291-296 | The result is one row shorter for each row with the code. No row with the code remains, and a row is kept iff it was there and has another code. |
| Companies.DeleteConcat | time_sheet.py:294 | Deleting distributes over concatenation, so the kept rows stay in their original relative order. |
| Companies.DeleteAbsent | time_sheet.py:294 | Deleting a code that is not in the table leaves it unchanged. |
| Companies.DeleteKeepsCodesUnique | time_sheet.py:294 | A table with unique codes keeps them unique after a delete. |
| Companies.CountCodeUnique | time_sheet.py:294 | With unique codes, a delete removes one row if the code is present and none otherwise. |
| Companies.DeleteOnlyRow | time_sheet.py:294 | Deleting the code of the only row leaves an empty table. |
| Companies.CompanyStore.Load | time_sheet.py:154-176 | With no stored file, an empty table is stored and returned. Otherwise the stored table is returned and the store is unchanged. |
| Companies.CompanyStore.Save | time_sheet.py:179-197 | The whole stored table is replaced by the given one. |

## Left out

- Google Drive and OAuth (`conectar_drive`, `obter_pasta_ts_fiscal`, `carregar_arquivo`, `salvar_arquivo`, and the listing, download and upload in `carregar_empresas` / `salvar_empresas`). These are network calls into libraries outside this model. The store is one optional table.
- CSV encoding through pandas (`;` separator, UTF-8 with byte-order mark). Codes are modelled as strings that survive a save and a load unchanged. pandas may read back a code such as `001` as the number 1, and then the duplicate check no longer matches it. That is not modelled.
- Users.ParseEntry: secrets values are modelled as strings. A non-string value, which the source also skips with a warning (the `except` catches the attribute error), is not modelled.
- The order of the warnings that `carregar_usuarios` emits is not modelled. `LoadUsers` returns the set of warned users.
- Streamlit UI: forms, buttons, messages, reruns, `@st.cache_data`, and the pages that only say "Em construção".
- The delete confirmation radio (lines 292-293) is not modelled. `Delete` is the operation once "Sim" is chosen.
- The edit form's prefill from the first row with the selected code (lines 276-279) is left out because it is display only. Nor is it modelled that the selectbox offers only codes present in the table: `Updated` and `Delete` are defined for any code.
- Lock files, backups, time entries and duration or date normalisation do not occur in `time_sheet.py` and are not part of this model.

## Findings

| source | as written | input that shows it | evidently intended | confidence | as-written member | corrected member |
|---|---|---|---|---|---|---|
| time_sheet.py:246-250 | The duplicate check looks for the code as typed, but the row stores `codigo.strip()`. | Table holding code `001`; insert code ` 001`. | A code whose stripped form is already registered is rejected as a duplicate. | high (not executed) | Companies.InsertAcceptsPaddedDuplicate | Companies.InsertTrimmed |
| time_sheet.py:242-250 | The required-field check tests the inputs as typed (`not codigo`), and a code of blanks passes. | Code `"  "`, name `Acme`. | A code or name that is blank after stripping counts as missing. | medium (not executed) | Companies.InsertAcceptsBlankCode | Companies.InsertTrimmed |
