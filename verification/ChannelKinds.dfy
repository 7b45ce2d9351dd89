/** The two kinds of channel (channels.type), shared by the modules on channels. */
module ChannelKinds {
  datatype Kind = Direct | Group
}
