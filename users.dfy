/**
  Loading the user table from the secrets: each configured user maps to a
  string "name|password", which is parsed into a record. Malformed entries
  are skipped with a warning.
 */
module Users {
  import opened Wrappers
  import opened Text

  datatype User = User(name: string, password: string)

  const Separator: char := '|'

  /** The inverse of parsing: how a well-formed secrets entry is written. */
  function Join(u: User): string {
    u.name + [Separator] + u.password
  }

  /** One entry: `nome, senha = dados.split("|", 1)`. Unpacking fails, and the
      entry is skipped, exactly when the split gives a single part. */
  function ParseEntry(dados: string): (u: Option<User>)
    ensures u.Some? <==> Separator in dados
    ensures u.Some? ==> Separator !in u.value.name && Join(u.value) == dados
  {
    var parts := SplitOnce(dados, Separator);
    if |parts| == 2 then Some(User(parts[0], parts[1])) else None
  }

  /** Parsing undoes `Join` whenever the name holds no separator; the password
      may hold any number of them. */
  lemma ParseJoin(u: User)
    requires Separator !in u.name
    ensures ParseEntry(Join(u)) == Some(u)
  {
    SplitOnceFirst(u.name, Separator, u.password);
  }

  /** "a|b|c" is the user named "a" whose password is "b|c". */
  lemma ParseFirstSeparatorOnly()
    ensures ParseEntry("a|b|c") == Some(User("a", "b|c"))
  {
    ParseJoin(User("a", "b|c"));
  }

  /** The table `carregar_usuarios` returns: every configured user whose
      entry parses, with its parsed record. */
  function ParseUsers(config: map<string, string>): (users: map<string, User>)
    ensures users.Keys == set u | u in config && Separator in config[u]
    ensures forall u :: u in users ==> Separator !in users[u].name && Join(users[u]) == config[u]
  {
    map u | u in config && ParseEntry(config[u]).Some? :: ParseEntry(config[u]).value
  }

  /** `carregar_usuarios`: the loop over the configured users. Besides the
      table it returns the users it warned about. */
  method LoadUsers(config: map<string, string>) returns (users: map<string, User>, warned: set<string>)
    ensures users == ParseUsers(config)
    ensures warned == set u | u in config && Separator !in config[u]
    ensures users.Keys !! warned && users.Keys + warned == config.Keys
  {
    users, warned := map[], {};
    var pending := config.Keys;
    while pending != {}
      invariant pending <= config.Keys
      invariant forall u :: u in users <==> u in config && u !in pending && ParseEntry(config[u]).Some?
      invariant forall u :: u in users ==> Some(users[u]) == ParseEntry(config[u])
      invariant forall u :: u in warned <==> u in config && u !in pending && ParseEntry(config[u]).None?
      decreases pending
    {
      var u :| u in pending;
      var entry := ParseEntry(config[u]);
      if entry.Some? {
        users := users[u := entry.value];
      } else {
        warned := warned + {u};
      }
      pending := pending - {u};
    }
    assert users.Keys == ParseUsers(config).Keys;
  }
}
