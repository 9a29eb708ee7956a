/** The types of commands, which all command trees share. */
module CommandTypes {
  datatype CommandType = Regular | Filter | BuildmodeType
}
