/**
 * DefaultHttpServerConfiguration: the three limits the request parser reads,
 * fixed when the configuration is made and only read afterwards.
 */
module HttpConfig {

  /** HEADER_PART_SIZE_MAX: 10 kilobytes of header section. */
  const HeaderPartSizeMax: int := 10240
  /** DEFAULT_BUFSIZE: the read buffer's length. */
  const DefaultBufSize: int := 4096
  /** POST_SIZE_MAX: 20 megabytes of one POSTed field value. */
  const PostSizeMax: int := 20 * 1024 * 1024

  /** The limits, read through getMaxPostSize, getHeaderPartMaxSize and getDefaultBufSize. */
  datatype ServerConfig = ServerConfig(maxPostSize: int, headerPartMaxSize: int, defaultBufSize: int)

  /** DefaultHttpServerConfiguration(long, int, int): the arguments stored as given, unchecked. */
  function Configured(maxPostSize: int, headerPartMaxSize: int, defaultBufSize: int): (c: ServerConfig)
    ensures c.maxPostSize == maxPostSize
    ensures c.headerPartMaxSize == headerPartMaxSize
    ensures c.defaultBufSize == defaultBufSize
  {
    ServerConfig(maxPostSize, headerPartMaxSize, defaultBufSize)
  }

  /** DefaultHttpServerConfiguration(long): only the POST limit chosen. */
  function WithMaxPostSize(postSizeMax: int): (c: ServerConfig)
    ensures c.maxPostSize == postSizeMax
    ensures c.headerPartMaxSize == 10240 && c.defaultBufSize == 4096
  {
    Configured(postSizeMax, HeaderPartSizeMax, DefaultBufSize)
  }

  /** DefaultHttpServerConfiguration(): every default. */
  function Default(): (c: ServerConfig)
    ensures c.maxPostSize == 20971520 && c.headerPartMaxSize == 10240 && c.defaultBufSize == 4096
  {
    Configured(PostSizeMax, HeaderPartSizeMax, DefaultBufSize)
  }

  /** The one-argument form differs from the default only in the POST limit. */
  lemma WithMaxPostSizeKeepsDefaults(postSizeMax: int)
    ensures WithMaxPostSize(postSizeMax) == Default().(maxPostSize := postSizeMax)
    ensures WithMaxPostSize(PostSizeMax) == Default()
  {
  }
}
