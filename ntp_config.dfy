/** Compile-time constants of the client (NTPClient.h, NTPClient.cpp). */
module NtpConfig {
  import opened Arduino

  /** NTP_PACKET_SIZE: every request and response is exactly this long. */
  const PacketSize: nat := 48

  /** NTP_DEFAULT_LOCAL_PORT: the port `begin()` uses without an argument. */
  const DefaultLocalPort: Int32 := 1337

  /** NTP_SERVER: the default server host name. */
  const DefaultServer: string := "pool.ntp.org"

  /** Constructor defaults for the time offset (s) and the update interval (ms). */
  const DefaultTimeOffset: Int32 := 0
  const DefaultUpdateInterval: ULong := 60000

  /** SEVENZYYEARS: seconds from the NTP prime epoch 1900-01-01 to 1970-01-01. */
  const SeventyYears: ULong := 2208988800
}
