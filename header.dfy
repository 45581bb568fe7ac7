/**
 * The site header: the abbreviated wallet address it shows, and the
 * condition under which it logs the connected wallet in by itself.
 */
module Header {
  import opened Wrappers

  /** `s.slice(0, n)` for `n >= 0`: the first `n` characters, or all of a shorter string. */
  function SliceTo(s: string, n: nat): (r: string)
    ensures |r| == if n <= |s| then n else |s|
    ensures r <= s
  {
    if n <= |s| then s[..n] else s
  }

  /** `s.slice(-n)` for `n > 0`: the last `n` characters, or all of a shorter string. */
  function SliceLast(s: string, n: nat): (r: string)
    ensures |r| == if n <= |s| then n else |s|
    ensures s[..|s| - |r|] + r == s
  {
    if n <= |s| then s[|s| - n..] else s
  }

  /** `` `${address.slice(0, 6)}...${address.slice(-4)}` ``. */
  function FormatAddress(address: string): string {
    SliceTo(address, 6) + "..." + SliceLast(address, 4)
  }

  /**
   * The abbreviation starts with the first six characters, ends with the
   * last four, has "..." between them, and is 13 characters long for any
   * address of ten characters or more.
   */
  lemma FormatAddressShape(address: string)
    ensures var f := FormatAddress(address);
      && |address| >= 6 ==> f[..6] == address[..6]
    ensures var f := FormatAddress(address);
      && |address| >= 4 ==> |f| >= 4 && f[|f| - 4..] == address[|address| - 4..]
    ensures var f := FormatAddress(address);
      && |address| >= 6 ==> f[6..9] == "..."
    ensures |address| >= 10 ==> |FormatAddress(address)| == 13
    ensures |address| < 4 ==> FormatAddress(address) == address + "..." + address
  {
    var f := FormatAddress(address);
    if |address| >= 6 {
      assert f == address[..6] + "..." + SliceLast(address, 4);
      assert f[..6] == address[..6];
      assert f[6..9] == "...";
    }
    if |address| >= 4 {
      var tail := address[|address| - 4..];
      assert f == SliceTo(address, 6) + "..." + tail;
      assert f[|f| - 4..] == tail;
    }
  }

  /**
   * The header logs in by itself once the user is authenticated, a wallet
   * is connected and the store holds no address yet.
   */
  function ShouldAutoLogin(authenticated: bool, currentWalletAddress: Option<string>,
                           storedWalletAddress: Option<string>): (fire: bool)
    ensures fire ==> authenticated && currentWalletAddress.Some? && !Truthy(storedWalletAddress)
    ensures fire <==> authenticated && Truthy(currentWalletAddress) && !Truthy(storedWalletAddress)
  {
    authenticated && Truthy(currentWalletAddress) && !Truthy(storedWalletAddress)
  }
}
