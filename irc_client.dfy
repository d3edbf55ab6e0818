/**
 * The part of the `irc` crate's data model that an XDCC request touches:
 * messages as the client stream delivers them, the crate's errors, the client
 * configuration, and what the server does at each step of a request.
 */
module Irc {
  import opened RustStd

  /**
   * `irc::proto::Command`, reduced to the commands a request tells apart:
   * `PRIVMSG(target, text)`, `PING(server, server2)` and everything else.
   */
  datatype Command =
    | Privmsg(target: string, text: string)
    | Ping(server: string, server2: Option<string>)
    | OtherCommand(name: string, args: seq<string>)

  /** `irc::proto::Message`; its tags and prefix play no part in a request and are dropped. */
  datatype Message = Message(command: Command)

  /** `irc::error::Error`, with the two variants a request raises itself named out. */
  datatype IrcError =
    | AsyncChannelClosed
    | PingTimeout
    | OtherError(description: string)

  /** One item the client stream yields: a message or an error. */
  type StreamItem = Result<Message, IrcError>

  /** `irc::client::data::Config`, reduced to the fields a request sets; the rest keep their defaults. */
  datatype Config = Config(
    nickname: Option<string>,
    username: Option<string>,
    server: Option<string>,
    channels: seq<string>)

  predicate IsPrivmsg(m: Message) {
    m.command.Privmsg?
  }

  /**
   * What the server and the connection do during one request: the outcome of
   * `Client::from_config`, `Client::identify`, `Client::stream` and
   * `Client::send_privmsg`, and the items the stream delivers before it ends.
   */
  datatype Session = Session(
    connect: Result<(), IrcError>,
    identify: Result<(), IrcError>,
    stream: Result<(), IrcError>,
    send: Result<(), IrcError>,
    incoming: seq<StreamItem>)
}
