/**
  The part of reading `mount -t nfs` output that both variants share: the
  output cut into lines, and one line cut into the server and path fields
  that `get_active_mounts` builds a Mount from.
 */
module MountTable {
  import opened Wrappers
  import opened RubyText

  /** One output line, before a Mount is built from it.
      NoField: the line is blank and is skipped.
      NoServer: the first field is made of colons only, so `split(':')` is empty and the server is nil.
      Fields: the first two `:` pieces; the path is nil when there is no second piece. */
  datatype RawLine = NoField | NoServer | Fields(server: string, path: Option<string>)

  /** The fields of a Mount, as values: what the mount table yields once servers are normalised. */
  datatype Entry = Entry(server: string, port: int, path: Option<string>)

  /** `output.split("\n")`. */
  function Lines(output: string): (r: seq<string>)
    ensures forall k :: 0 <= k < |r| ==> '\n' !in r[k]
    ensures r == [] || r[|r| - 1] != []
  {
    SplitPieces(output, '\n');
    Split(output, '\n')
  }

  /** `server_path = line.split()[0]` followed by `(server, path) = server_path.split(':')`. */
  function RawFields(line: string): (r: RawLine)
    ensures r.NoField? <==> FirstField(line).None?
    ensures r.Fields? ==> ':' !in r.server && (r.path.Some? ==> ':' !in r.path.value)
    ensures r.Fields? && r.path.None? ==> Split(FirstField(line).value, ':') == [r.server]
  {
    match FirstField(line)
    case None => NoField
    case Some(token) =>
      var pieces := Split(token, ':');
      SplitPieces(token, ':');
      if pieces == [] then NoServer
      else Fields(pieces[0], if |pieces| >= 2 then Some(pieces[1]) else None)
  }

  /** The server is nil exactly when the first field is made of colons only. */
  lemma {:induction false} RawFieldsNoServer(line: string)
    ensures RawFields(line).NoServer? <==>
              FirstField(line).Some? && forall i :: 0 <= i < |FirstField(line).value| ==> FirstField(line).value[i] == ':'
  {
    if FirstField(line).Some? {
      OnlySeparators(FirstField(line).value, ':');
    }
  }

  /** No character of a concatenation is whitespace when none of either part is. */
  lemma {:induction false} NoSpaceAppend(a: string, b: string)
    requires forall i :: 0 <= i < |a| ==> !IsSpace(a[i])
    requires forall i :: 0 <= i < |b| ==> !IsSpace(b[i])
    ensures forall i :: 0 <= i < |a + b| ==> !IsSpace((a + b)[i])
  {
    forall i | 0 <= i < |a + b| ensures !IsSpace((a + b)[i]) {
      if i >= |a| { assert (a + b)[i] == b[i - |a|]; }
    }
  }

  /** The colon pieces of `server:path:...` start with the server and the path. */
  lemma {:induction false} SplitAllServerPath(server: string, path: string, more: string) returns (rest: seq<string>)
    requires ':' !in server && ':' !in path
    requires more == [] || more[0] == ':'
    ensures SplitAll(server + ":" + path + more, ':') == [server, path] + rest
  {
    var token := server + ":" + path + more;
    assert token == server + [':'] + (path + more);
    SplitAllAppend(server, path + more, ':');
    SplitAllNoSep(server, ':');
    if more == [] {
      assert path + more == path;
      SplitAllNoSep(path, ':');
      rest := [];
    } else {
      assert path + more == path + [':'] + more[1..];
      SplitAllAppend(path, more[1..], ':');
      SplitAllNoSep(path, ':');
      rest := SplitAll(more[1..], ':');
    }
  }

  /** `server:path:...` splits at its colons into the server, the path and what follows. */
  lemma {:induction false} SplitServerPath(server: string, path: string, more: string)
    requires ':' !in server && ':' !in path && path != []
    requires more == [] || more[0] == ':'
    ensures [server, path] <= Split(server + ":" + path + more, ':')
  {
    var rest := SplitAllServerPath(server, path, more);
    DropTrailingEmptyKeeps([server, path], rest);
  }

  /** `server:path`, possibly followed by more `:` pieces, gives that server and that path. */
  lemma {:induction false} RawFieldsOf(lead: string, server: string, path: string, more: string, tail: string)
    requires forall i :: 0 <= i < |lead| ==> IsSpace(lead[i])
    requires ':' !in server && ':' !in path && path != []
    requires more == [] || more[0] == ':'
    requires forall i :: 0 <= i < |server| ==> !IsSpace(server[i])
    requires forall i :: 0 <= i < |path| ==> !IsSpace(path[i])
    requires forall i :: 0 <= i < |more| ==> !IsSpace(more[i])
    requires tail == [] || IsSpace(tail[0])
    ensures RawFields(lead + server + ":" + path + more + tail) == Fields(server, Some(path))
  {
    var token := server + ":" + path + more;
    NoSpaceAppend(server, ":");
    NoSpaceAppend(server + ":", path);
    NoSpaceAppend(server + ":" + path, more);
    assert lead + server + ":" + path + more + tail == lead + token + tail;
    FirstFieldOf(lead, token, tail);
    SplitServerPath(server, path, more);
  }

  /** A field without a second `:` piece (`host` or `host:`) gives a nil path. */
  lemma {:induction false} RawFieldsServerOnly(lead: string, server: string, colons: nat, tail: string)
    requires forall i :: 0 <= i < |lead| ==> IsSpace(lead[i])
    requires server != [] && ':' !in server
    requires forall i :: 0 <= i < |server| ==> !IsSpace(server[i])
    requires colons <= 1
    requires tail == [] || IsSpace(tail[0])
    ensures RawFields(lead + server + Repeat(':', colons) + tail) == Fields(server, None)
  {
    var token := server + Repeat(':', colons);
    NoSpaceAppend(server, Repeat(':', colons));
    assert lead + server + Repeat(':', colons) + tail == lead + token + tail;
    FirstFieldOf(lead, token, tail);
    SplitAllTrailing(server, ':', colons);
    DropTrailingEmptyOf([server], colons);
    assert Split(token, ':') == [server];
  }
}
