/**
 * The shapes of types.go that the YouTube handler reads and updates: a chat
 * destination and the per-source stream entry.
 */
module Streams {

  /** One Discord channel that receives announcements for an entry, with the
      message last posted there. */
  datatype DiscordChannel = DiscordChannel(channelId: string, messageId: string)

  /**
   * A monitored source channel (`streamInfo`). Only the fields the core reads
   * or writes are kept: its identity, its destinations and the list of video
   * IDs already announced, which the YouTube handler appends to in place.
   */
  class StreamInfo {
    var streamName: string
    var userId: string
    var channels: seq<DiscordChannel>
    var streamType: int
    var videoIds: seq<string>

    constructor (name: string, user: string, dests: seq<DiscordChannel>, kind: int, seen: seq<string>)
      ensures streamName == name && userId == user && channels == dests
      ensures streamType == kind && videoIds == seen
    {
      streamName, userId, channels, streamType, videoIds := name, user, dests, kind, seen;
    }
  }
}
