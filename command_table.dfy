// `unified_command_table` (src/commands.cpp): each command word maps to a
// client handler and, for the commands the server answers, a server handler.
module CommandTable {

  import opened Optional

  datatype ClientHandler = ClientQuit | ClientHelp | ClientWho | ClientWhisper | ClientName | ClientClear | ClientPing

  datatype ServerHandler = ServerHelp | ServerWho | ServerWhisper | ServerName | ServerPing

  /** One row of the table; `server` is None where the source stores nullptr. */
  datatype Row = Row(client: ClientHandler, server: Option<ServerHandler>)

  /** The command words the table knows. */
  const Words: set<string> := {"/quit", "/help", "/who", "/whisper", "/name", "/clear", "/ping"}

  /** Looking a command word up: exactly the seven words have a row, and
      only /quit and /clear lack a server handler. */
  function Lookup(word: string): (r: Option<Row>)
    ensures r.Some? <==> word in Words
    ensures r.Some? ==> (r.value.server.None? <==> word == "/quit" || word == "/clear")
    ensures r.Some? && r.value.server.Some? ==>
              (r.value.client == ClientWhisper <==> r.value.server.value == ServerWhisper) &&
              (r.value.client == ClientName <==> r.value.server.value == ServerName)
  {
    if word == "/quit" then Some(Row(ClientQuit, None))
    else if word == "/help" then Some(Row(ClientHelp, Some(ServerHelp)))
    else if word == "/who" then Some(Row(ClientWho, Some(ServerWho)))
    else if word == "/whisper" then Some(Row(ClientWhisper, Some(ServerWhisper)))
    else if word == "/name" then Some(Row(ClientName, Some(ServerName)))
    else if word == "/clear" then Some(Row(ClientClear, None))
    else if word == "/ping" then Some(Row(ClientPing, Some(ServerPing)))
    else None
  }

}
