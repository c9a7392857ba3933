/** The downloader's configuration (the Downloader and HttpProxy structs) and the two
    constructors of downloader.go: NewDownloader and the URL half of NewDownloadTask. */
module Config {
  import opened Wrappers

  const DefaultUserAgent: string :=
    "Mozilla/5.0 (Windows NT 10.0; Win64; x64) AppleWebKit/537.36 (KHTML, like Gecko) Chrome/107.0.0.0 Safari/537.36"

  /** time.Second, in nanoseconds (a time.Duration). */
  const Second: int := 1000000000

  /** An explicit proxy URL, or none; isNoProxy also switches off the environment's proxy. */
  datatype HttpProxy = HttpProxy(host: string, isNoProxy: bool)

  /** Settings shared by every task of one downloader. */
  datatype Downloader = Downloader(
    savePath: string,
    httpProxy: HttpProxy,
    timeout: int,
    userAgent: string,
    downloadRoutine: int)

  /** NewDownloader: save into "./", no explicit proxy, a 60 second timeout, four workers
      and the browser user agent. */
  function NewDownloader(): (d: Downloader)
    ensures d.savePath == "./" && d.timeout == 60 * Second && d.downloadRoutine == 4
    ensures d.userAgent == DefaultUserAgent && d.httpProxy == HttpProxy("", false)
  {
    Downloader("./", HttpProxy("", false), 60 * Second, DefaultUserAgent, 4)
  }

  /** The parts of a parsed URL that a task keeps (url.URL's Scheme, Host, Path, RawQuery). */
  datatype UrlParts = UrlParts(scheme: string, host: string, path: string, rawQuery: string)

  /** NewDownloadTask's scheme default: a URL without a scheme is fetched over http. */
  function WithDefaultScheme(u: UrlParts): (r: UrlParts)
    ensures r.scheme != ""
    ensures u.scheme != "" ==> r == u
    ensures u.scheme == "" ==> r == u.(scheme := "http")
  {
    if u.scheme == "" then u.(scheme := "http") else u
  }

  lemma WithDefaultSchemeIdempotent(u: UrlParts)
    ensures WithDefaultScheme(WithDefaultScheme(u)) == WithDefaultScheme(u)
  {
  }
}
